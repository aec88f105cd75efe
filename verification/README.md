# TRLib, modelled and verified

TRLib is an allocation-free MTProto 2.0 core: protocol logic over buffers the caller owns.  This project
models one connected stack of it in Dafny and proves what the stack promises.

- **Authorization key.** The handshake object (`handshake_methods.dfy`) is proved against a state machine on
  values (`handshake.dfy`); `handshake_checks.dfy` says byte by byte what is accepted and sent, `handshake_runs.dfy`
  proves safety over all call sequences, `handshake_driver.dfy` that the object runs as the state machine does,
  `key_agreement.dfy` the agreement with an honest server.  `factoring.dfy` holds the rho factoriser, `rsa_pad.dfy` RSA_PAD, `number_theory.dfy` the
  arithmetic under both, `pinned_numbers.dfy` the facts about the compiled-in numbers.
- **Session crypto and packets.** `aes_ige.dfy`, `session_crypto.dfy`, `packets.dfy`, and end to end `message_stream.dfy`.
- **TL.** Reading and writing (`tl_codec.dfy`, `tl_lists.dfy`, `tl_cursor.dfy`, `tl_writer.dfy`), the table-driven
  serializer (`schema.dfy`, `schema_writer.dfy`), a reader for its texts and the round trip (`schema_decoder.dfy`,
  `schema_round_trip.dfy`, `schema_sugar.dfy`, `schema_normal.dfy`), the hand-written writers (`direct_writers.dfy`,
  `send_message.dfy`, read back in `direct_reads.dfy`) and the generator of the tables (`schema_parser.dfy`,
  `schema_lookup.dfy`).
- **Transport.** `framing.dfy`, `gateway.dfy`, `replay_window.dfy`, `containers.dfy`.
- **Stored sessions.** `hex.dfy`, `aes_ctr.dfy`, `keyed_hash.dfy`, `session_record.dfy`, `session_document.dfy`,
  `session_methods.dfy`.

Objects whose methods update fields are classes (`Cursor`, `Writer`, `Source`, `MessageIdWindow`,
`AuthKeyHandshake`, `MessageContainer`), loops over buffers are loops over arrays, and each is proved against a
function on values.  The theorems are about those functions.

Assumptions: the hash functions have results of 20 and 32 bytes, and block encryption and decryption are inverse
(`primitives.dfy`); entropy is an arbitrary byte stream that may run dry (`random_source.dfy`); the server's private RSA
operation inverts the public one.  The modulus and the prime are parameters; the compiled-in values are shown to meet
what is assumed of them.

Where the code differs from what one would expect, the code is followed: the length word of abridged frames may be
overlong, values sharing a flag bit may disagree, `UserIds` carries an identifier the schema does not have, and the
generator accepts gates beyond bit 31.  For each there is a concrete example and the exact condition under which
the expected property holds.

## Model

| member | source | states |
|---|---|---|
| KeyAgreement.WholeRunAgrees | crates/trlib-core/src/auth_key.rs:207-362 | against an honest server (private key, valid group, in-range g_a) the whole handshake returns key material if and only if the number is factored, the RSA padding finds a candidate, at least 268 bytes of entropy are left after it, g_b is in range and the buffers hold 320 and 376 bytes; the key, key identifier, salt and time are then the server's own, and the key is g^(ab) mod p |
| KeyAgreement.SecondExchangeAgrees | crates/trlib-core/src/auth_key.rs:207-362 | the same if-and-only-if for the exchange after the first message |
| KeyAgreement.FirstExchange | crates/trlib-core/src/auth_key.rs:138-204 | if the client answers the server's resPQ, it has stored the server's nonce and the server decrypts the client's new nonce from the answer |
| KeyAgreement.ClientTakesResPq | crates/trlib-core/src/auth_key.rs:144-178 | the client gets past every check on an honest resPQ, and the number it factors is the server's |
| KeyAgreement.ClientAnswersWhenItCan | crates/trlib-core/src/auth_key.rs:144-203 | the client answers an honest resPQ if and only if the number is factored, the padding succeeds and the buffer holds 320 bytes, and then has drawn what the padding drew |
| KeyAgreement.NewNonceReachesServer | crates/trlib-core/src/auth_key.rs:179-203 | the holder of the private key unpads the request and reads the new nonce, provided p·q is its number with p ≤ q |
| KeyAgreement.ClientTakesServerAnswer | crates/trlib-core/src/auth_key.rs:213-270 | the client decrypts an honest server_DH_params_ok and gets past its hash, length, generator, prime and range checks |
| KeyAgreement.BothSidesAgree | crates/trlib-core/src/auth_key.rs:271-308 | the client sends its public value exactly when entropy, range and buffer allow; from that message the server computes the key the client stored, and no other field of the client changes |
| KeyAgreement.PublicValueReachesServer | crates/trlib-core/src/auth_key.rs:289-306 | the server decrypts set_client_DH_params, finds the hash right and reads g_b |
| KeyAgreement.SecretsCommute | crates/trlib-core/src/auth_key.rs:273-281 | (g^a)^b = g^(ab) = (g^b)^a modulo p |
| KeyAgreement.ClientTakesConfirmation | crates/trlib-core/src/auth_key.rs:312-361 | a dh_gen_ok carrying the hash of the stored key is accepted and yields the server's key material |
| HandshakeRuns.EveryRunIsSafe | crates/trlib-core/src/auth_key.rs:138-362 | for every sequence of calls with arbitrary inputs, entropy and buffers: the successful calls are exactly the first few of resPQ, server_DH_params_ok, dh_gen_ok, so finish succeeds at most once; nonces and data-centre never change; from state 2 on p is the pinned prime, g_a is in [2^1984, p − 2^1984] and the key is g_a^b for the b whose g_b was sent; after finish the key is wiped |
| HandshakeRuns.RunKeepsNonces | crates/trlib-core/src/auth_key.rs:138-362 | from any point of a run on, nonce and new nonce stay, the server's nonce stays once state 1 is reached, and the state counts the successful calls |
| HandshakeRuns.StepMovesOnePhase | crates/trlib-core/src/auth_key.rs:138-362 | a success moves the state by exactly one, a failure leaves it, and a call in the wrong state fails with InvalidState and changes nothing |
| HandshakeRuns.SecondStepAgrees | crates/trlib-core/src/auth_key.rs:242-308 | when server_DH_params_ok is accepted, the group and g_a passed the checks and the stored key is g_a to the secret behind the g_b in the message |
| HandshakeRuns.FailureKeepsKey | crates/trlib-core/src/auth_key.rs:312-342 | once the key is agreed, a failing call changes no field at all |
| HandshakeDriver.Drive | crates/trlib-core/src/auth_key.rs:138-362 | an object handed any messages in any order, with one entropy source and one buffer, ends in the state of the run of their calls, answers its replies in order, leaves its entropy, and from the initial state on is safe |
| HandshakeDriver.Feed | crates/trlib-core/src/auth_key.rs:138-362 | one message: the answer found in the buffer or returned, the fields and the entropy left are those of one step |
| HandshakeMethods.AuthKeyHandshake.Start | crates/trlib-core/src/auth_key.rs:112-127 | draws both nonces, 16 and then 32 bytes, and starts in state 0, or fails as the entropy source does, which is exactly if it holds fewer than 48 |
| HandshakeMethods.AuthKeyHandshake.StartTestDc | crates/trlib-core/src/auth_key.rs:108-110 | the same with the data-centre number raised by 10000, saturating |
| HandshakeMethods.AuthKeyHandshake.WriteReqPq | crates/trlib-core/src/auth_key.rs:130-135 | the buffer starts with the constructor and the nonce if they fit, otherwise OutputTooSmall |
| HandshakeMethods.AuthKeyHandshake.AcceptResPq | crates/trlib-core/src/auth_key.rs:138-204 | answer, every field, remaining entropy and the caller's buffer are those of the specification, including what is stored when the call fails half-way; on every error but a full buffer the buffer is untouched |
| HandshakeMethods.AuthKeyHandshake.AcceptServerDh | crates/trlib-core/src/auth_key.rs:207-309 | the same for server_DH_params_ok; it succeeds if and only if the input is a proposal that can be answered, every proposal has its group, g_a and time stored, and the key is then g_a to the secret modulo p |
| HandshakeMethods.AuthKeyHandshake.Agree | crates/trlib-core/src/auth_key.rs:271-308 | the Diffie-Hellman part; until the shared key replaces it, the secret lies in the key field |
| HandshakeMethods.AuthKeyHandshake.Finish | crates/trlib-core/src/auth_key.rs:312-362 | succeeds if and only if the state is 2 and the input is the confirmation, with the material in bytes; the stored key is zeroed on success only |
| HandshakeChecks.AnswersExactlyProposals | crates/trlib-core/src/auth_key.rs:207-309 | server_DH_params_ok is answered if and only if it is a proposal — header, encrypted inner text with its hash in front and at most 15 bytes behind, generator 2 to 7, the pinned prime, 2^1984 ≤ g_a ≤ p − 2^1984, key and vector byte by byte from the nonces — and entropy, range of g_b and 376 bytes of room allow; group, g_a and time are then those proposed and the key is g_a to the secret, and anything else changes at most the time |
| HandshakeChecks.TakesExactlyProposals | crates/trlib-core/src/auth_key.rs:207-309 | every proposal, whatever its g_a in that range, passes all checks, and nothing else does |
| HandshakeChecks.ChecksInOrder | crates/trlib-core/src/auth_key.rs:246-268 | length, then hash, then group decide the error of a decrypted answer, with the bounds in numbers |
| HandshakeChecks.AnswerInBytes | crates/trlib-core/src/auth_key.rs:289-306 | set_client_DH_params holds, encrypted under the temporary key, the hashed text of nonces, a zero retry identifier and g_b, followed by twelve random bytes |
| HandshakeChecks.TemporaryKeysOnce | crates/trlib-core/src/auth_key.rs:385-408 | each byte of the temporary key and vector is the named byte of one of three hashes or of the new nonce |
| HandshakeChecks.FinishesExactlyWhenConfirmed | crates/trlib-core/src/auth_key.rs:312-357 | in state 2 finish succeeds if and only if the input is the identifier, both nonces and bytes 4 to 20 of the hash of new nonce, the byte 1 and half the key's hash; another hash, retry or fail is Authentication; the key identifier is the last eight bytes of the key's hash and the salt combines the nonces byte by byte |
| HandshakeChecks.OfferIsRead | crates/trlib-core/src/auth_key.rs:147-177 | resPQ is accepted if and only if it is the identifier, both nonces, a number of one to eight bytes and a vector of at most eight fingerprints with the pinned one among them, and nothing behind |
| HandshakeChecks.RequestInBytes | crates/trlib-core/src/auth_key.rs:130-203 | req_pq_multi and req_DH_params as concatenations of their fields, identifiers in numbers |
| HandshakeChecks.InnerRequestInBytes | crates/trlib-core/src/auth_key.rs:179-191 | the inner text of req_DH_params as the concatenation of its fields |
| HandshakeMethods.ReadFingerprints | crates/trlib-core/src/auth_key.rs:165-169 | the loop reads as many fingerprints as were counted, or fails where reading a list fails |
| HandshakeMethods.WordOf | crates/trlib-core/src/auth_key.rs:161-164 | the shift-and-or loop yields the big-endian value of up to eight bytes |
| HandshakeMethods.PqInner | crates/trlib-core/src/auth_key.rs:179-191 | the inner data always fits its 144-byte buffer and is the text of its fields |
| HandshakeMethods.CheckAnswer | crates/trlib-core/src/auth_key.rs:246-268 | the checks on the decrypted answer in order, bounds in numbers, with the error of the first that fails |
| HandshakeMethods.SealClient | crates/trlib-core/src/auth_key.rs:289-301 | hash, body and padding are laid out in the buffer and encrypted in place |
| HandshakeMethods.DeriveTemporaryAes | crates/trlib-core/src/auth_key.rs:385-408 | the buffers end up with key and vector as the protocol defines them from the two nonces |
| HandshakeMethods.ExpectedConfirmation | crates/trlib-core/src/auth_key.rs:334-339 | the 41-byte buffer hashes to the confirmation the protocol defines |
| HandshakeMethods.ComputeSalt | crates/trlib-core/src/auth_key.rs:343-346 | the loop computes the exclusive or of the nonces' first eight bytes |
| HandshakeMessages.ResPqIsRead | crates/trlib-core/src/auth_key.rs:147-177 | resPQ as a server writes it is read back: server nonce and number, if the pinned key is listed |
| HandshakeMessages.ServerDhIsRead | crates/trlib-core/src/auth_key.rs:216-232 | server_DH_params_ok with 32 to 1024 aligned bytes is read back |
| HandshakeMessages.DhInnerIsRead | crates/trlib-core/src/auth_key.rs:237-245 | the inner data is read back with whatever padding follows |
| HandshakeMessages.DhGenOkIsRead | crates/trlib-core/src/auth_key.rs:316-333 | dh_gen_ok is read back |
| HandshakeMessages.PqInnerLength | crates/trlib-core/src/auth_key.rs:179-191 | the inner data never exceeds 100 bytes |
| HandshakeMessages.ClientInnerLength | crates/trlib-core/src/auth_key.rs:291-297 | the client's inner data has 304 bytes, so padding has 12 |
| PinnedNumbers.PinnedNumbersAreValid | crates/trlib-core/src/auth_key.rs:40-46 | the compiled-in modulus and prime are odd and in the ranges all handshake theorems assume |
| PinnedNumbers.HonestServersExist | crates/trlib-core/src/auth_key.rs:257-268 | over the pinned prime there is a server meeting every assumption of the agreement theorems, with a degenerate modulus |
| Bytes.BeRoundTrip | crates/trlib-core/src/auth_key.rs:279-287 | a number that fits is read back from its big-endian bytes |
| Bytes.BeCanonical | crates/trlib-core/src/auth_key.rs:261 | big-endian bytes are those of the number they denote |
| Bytes.LeRoundTrip | crates/trlib-core/src/tl/writer.rs:75-96 | a number that fits is read back from its little-endian bytes |
| Bytes.LeValueOfConcat | crates/trlib-core/src/tl/writer.rs:75-96 | little-endian: the first byte counts least |
| Bytes.BeValueOfConcat | crates/trlib-core/src/auth_key.rs:261 | big-endian: the first byte counts most |
| Bytes.XorByteDigit | crates/trlib-core/src/auth_key.rs:341-344 | exclusive or digit by digit |
| Factoring.FactorPq | crates/trlib-core/src/auth_key.rs:465-492 | an answer (a, b) multiplies to n with 1 < a ≤ b and comes from the first try that yields factors; InvalidPacket if and only if n is even or below 15; otherwise all 32 tries failed, and for one-byte seeds, n ≤ 2^64 − 317 and a divisor up to 200000 each of them met n or a factor longer than 32 bits |
| Factoring.Search | crates/trlib-core/src/auth_key.rs:470-482 | the cycle search returns the gcd at the first step where it exceeds one, or one if none of the 200000 steps does |
| Factoring.ComputeGcd | crates/trlib-core/src/auth_key.rs:497-504 | the loop computes the greatest common divisor |
| NumberTheory.GcdIsGreatest | crates/trlib-core/src/auth_key.rs:497-504 | the divisors of the result are exactly the common divisors |
| Factoring.SearchMeetsSmallDivisors | crates/trlib-core/src/auth_key.rs:470-482 | completeness: if n has a divisor m with 1 < m ≤ 200000 and no sum on the walk overflows, the search breaks with d > 1 at or before step m |
| Factoring.TortoiseAndHareMeet | crates/trlib-core/src/auth_key.rs:474-477 | if no sum on the walk overflows, tortoise and hare agree modulo any divisor m of n at some step between 1 and m |
| Factoring.SomePointsMeet | crates/trlib-core/src/auth_key.rs:474-477 | among the first m + 1 points of the walk two agree modulo m |
| Factoring.Pigeonhole | crates/trlib-core/src/auth_key.rs:474-477 | more values than residues repeat one |
| Factoring.MeetingPersists | crates/trlib-core/src/auth_key.rs:475-477 | if no sum on the walk overflows, points that are congruent modulo a divisor of n stay so |
| Factoring.FailedTryIsDegenerate | crates/trlib-core/src/auth_key.rs:483-488 | when a small divisor exists and no sum on the walk overflows, a try fails only because it met n itself or a factor longer than 32 bits |
| Factoring.FailureIsDegenerate | crates/trlib-core/src/auth_key.rs:465-492 | lifted to all tries: with a one-byte seed and odd n from 15 to 2^64 − 317 that has a divisor up to 200000, no factors means each of the 32 tries met n or a factor longer than 32 bits |
| Factoring.FactorsAreSound | crates/trlib-core/src/auth_key.rs:483-486 | factors multiply to n and are ascending and greater than one |
| Factoring.FactorsAreDetermined | crates/trlib-core/src/auth_key.rs:465-492 | number and seed determine the answer |
| Factoring.LargestSumForByteSeeds | crates/trlib-core/src/auth_key.rs:178 | with the one-byte seed of the call site the largest conceivable sum n − 1 + c of all tries stays below 2^64 if and only if n ≤ 2^64 − 318 |
| Factoring.SumsFitForByteSeeds | crates/trlib-core/src/auth_key.rs:178 | with a one-byte seed and n ≤ 2^64 − 317 no sum of any try wraps, on the walk or from any other point |
| Factoring.ByteSeedBoundIsSharp | crates/trlib-core/src/auth_key.rs:465-492 | at the next odd number, 2^64 − 315, with seed 255 and the last try there is a point, not claimed to lie on the walk, whose sum wraps |
| Factoring.LargestSumForAnySeed | crates/trlib-core/src/auth_key.rs:469-477 | for arbitrary seeds the largest conceivable sum stays below 2^64 if and only if n ≤ 2^63 − 31 |
| Factoring.SumsFitForAnySeed | crates/trlib-core/src/auth_key.rs:469-477 | for arbitrary seeds and n ≤ 2^63 − 31 no sum on the walk of any try wraps |
| Factoring.FirstSumOverflows | crates/trlib-core/src/auth_key.rs:469-477 | at n = 2^64 − 1 there is a seed whose first try wraps in the first step of its walk |
| RsaPad.RsaPadEncrypt | crates/trlib-core/src/auth_key.rs:410-459 | result and entropy used are those of drawing keys until a candidate is below the modulus, at most 64 times; succeeds if and only if one of them is |
| RsaPad.BuildCandidate | crates/trlib-core/src/auth_key.rs:426-442 | reversal, hash, encryption and masking of one attempt, in buffers |
| RsaPad.Reverse | crates/trlib-core/src/auth_key.rs:421-424 | the loop reverses the padded data |
| RsaPad.UnpaddedCandidate | crates/trlib-core/src/auth_key.rs:426-442 | undoing mask, encryption and reversal gives the padded data back with a matching hash |
| RsaPad.KeyHolderRecoversData | crates/trlib-core/src/auth_key.rs:410-459 | whenever padding succeeds, the private operation recovers the data followed by the random bytes that filled it up |
| RsaPad.PaddingSucceedsExactly | crates/trlib-core/src/auth_key.rs:410-459 | padding succeeds if and only if the data has at most 144 bytes, the filling is drawn and one of the first 64 keys drawn gives a candidate below the modulus; the first such key decides result and entropy left |
| RsaPad.CandidateInBytes | crates/trlib-core/src/auth_key.rs:426-442 | a candidate is a masked key and the encryption of the data in reverse order with the hash of key and data behind it |
| AesIge.AesIgeEncrypt | crates/trlib-core/src/crypto.rs:185-214 | the in-place loop equals the recursive chaining on the stretch given and leaves the rest of the buffer |
| AesIge.AesIgeDecrypt | crates/trlib-core/src/crypto.rs:223-252 | the same for decryption |
| AesIge.StepInverse | crates/trlib-core/src/crypto.rs:185-252 | one block step undoes the other, in both orders |
| AesIge.DecryptUndoesEncrypt | crates/trlib-core/src/crypto.rs:185-252 | decrypting undoes encrypting for every key, chaining values and data |
| AesIge.EncryptUndoesDecrypt | crates/trlib-core/src/crypto.rs:185-252 | encrypting undoes decrypting |
| AesIge.IgeInverse | crates/trlib-core/src/crypto.rs:185-252 | both, for an initialization vector |
| AesIge.IgeEquation | crates/trlib-core/src/crypto.rs:185-214 | block i is E(m[i] xor c[i − 1]) xor m[i − 1], with c[−1] and m[−1] the halves of the vector |
| SessionCrypto.OpensExactlyWhatWasSealed | crates/trlib-core/src/crypto.rs:94-126 | open accepts a message key and ciphertext with a plaintext if and only if seal produces them from that plaintext |
| SessionCrypto.SealsAsSpecified | crates/trlib-core/src/crypto.rs:41-105 | seal with every offset written out for each direction: the message key is the middle of the hash of authorization-key bytes 88 to 120 (96 to 128) and the plaintext, and key and vector interleave the hashes with bytes 0 to 36 and 40 to 76 (8 to 44 and 48 to 84) |
| SessionCrypto.OpensAsSpecified | crates/trlib-core/src/crypto.rs:107-126 | open succeeds exactly on what some plaintext is so sealed to |
| SessionCrypto.SlicesDecide | crates/trlib-core/src/crypto.rs:41-52 | authorization keys that agree on a direction's three slices seal alike in it |
| SessionCrypto.Seal | crates/trlib-core/src/crypto.rs:94-105 | replaces the stretch by its ciphertext and returns the message key, both given by offsets into the authorization key; data below 32 bytes or not of whole blocks is refused untouched |
| SessionCrypto.Open | crates/trlib-core/src/crypto.rs:107-126 | succeeds if and only if something seals to the input, and then replaces the stretch by it; otherwise wipes it with zeros before returning Authentication |
| Packets.ReceivesExactlyWhatWasSent | crates/trlib-core/src/mtproto/envelope.rs:78-152 | a receiver accepts a packet with a key identifier and message if and only if the identifier is not zero, the message is sendable within the limit and the packet is its encoding; all fields and the padding come back |
| Packets.DecryptedReadsInnerText | crates/trlib-core/src/mtproto/envelope.rs:119-152 | parsing the plaintext of a sendable message gives it back |
| Packets.DecryptedIsCanonical | crates/trlib-core/src/mtproto/envelope.rs:119-152 | a plaintext that parses is the text of the parsed message, which is sendable |
| Packets.ExternalOfEncrypted | crates/trlib-core/src/mtproto/envelope.rs:78-117 | an encrypted envelope passes exactly when its identifier is not zero, its data is aligned and at most the limit plus 1072 |
| Packets.ExternalIsCanonical | crates/trlib-core/src/mtproto/envelope.rs:78-117 | an accepted encrypted envelope is the concatenation of its fields |
| Packets.PlainIsRead | crates/trlib-core/src/mtproto/envelope.rs:81-92 | an envelope is read as a plain one if and only if it is eight zero bytes, identifier, length and a body of whole words within the limit, with nothing behind |
| Packets.LargeEnvelopes | crates/trlib-core/src/mtproto/envelope.rs:86-117 | envelopes beyond the limit are LimitExceeded |
| Packets.PacketInBytes | crates/trlib-core/src/mtproto/outbound.rs:63-104 | where each field of a packet and of the text inside it stands |
| Packets.EncodeEncrypted | crates/trlib-core/src/mtproto/outbound.rs:63-104 | writes exactly the encrypted packet, encrypting in place; it succeeds exactly on whole words, 12 to 1024 bytes of padding, whole blocks, 32-bit length and room; a wrong size or a full buffer leaves the buffer untouched, a body beyond 32 bits leaves exactly the fields in front of its length |
| Packets.ParseExternal | crates/trlib-core/src/mtproto/envelope.rs:78-117 | the cursor-based parser computes the envelope function |
| Packets.ParseDecrypted | crates/trlib-core/src/mtproto/envelope.rs:119-152 | the cursor-based parser computes the message function |
| ReplayWindow.WindowIsAFunctionOfTheOfferedSet | crates/trlib-core/src/mtproto/message_id.rs:59-75 | runs offering the same set of identifiers, in any order and with any repeats, leave identical windows |
| ReplayWindow.RunIsTopOfOffers | crates/trlib-core/src/mtproto/message_id.rs:59-75 | after any run the window lists, in ascending order, the min(32, n) largest of the n identifiers offered, accepted or not |
| ReplayWindow.TopIsUnique | crates/trlib-core/src/mtproto/message_id.rs:59-75 | that property determines the window |
| ReplayWindow.AcceptedExactlyWhenFresh | crates/trlib-core/src/mtproto/message_id.rs:59-75 | an offer is accepted if and only if the identifier was never offered before and fewer than 32 offered ones are larger |
| ReplayWindow.NoIdentifierIsAcceptedTwice | crates/trlib-core/src/mtproto/message_id.rs:61-73 | no identifier is accepted a second time, even after it was evicted |
| ReplayWindow.MinimumOfFullWindowIncreases | crates/trlib-core/src/mtproto/message_id.rs:64-73 | an acceptance into a full window strictly raises its smallest entry |
| ReplayWindow.MessageIdWindow.Insert | crates/trlib-core/src/mtproto/message_id.rs:59-75 | the array update with sort computes the next window and answers by freshness against everything offered |
| ReplayWindow.ValidMeansRecent | crates/trlib-core/src/mtproto/message_id.rs:15-38 | an identifier passes if and only if its parity fits the direction and its time lies between 300 s ago and 30 s ahead |
| Framing.StreamRoundTrip | crates/trlib-core/src/transport/abridged.rs:55-97 | for either codec, the frames of any encodable payloads followed by any bytes decode to those payloads, consuming exactly their bytes |
| Framing.DecodeAfterEncode | crates/trlib-core/src/transport/intermediate.rs:16-71 | one encoded payload decodes to itself whatever follows |
| Framing.EncodeAfterDecode | crates/trlib-core/src/transport/abridged.rs:16-97 | a decoded payload re-encodes to the bytes consumed if and only if the codec is intermediate, or the abridged header was the short one, or the payload needs the long one |
| Framing.LongHeaderOnShortFrame | crates/trlib-core/src/transport/abridged.rs:22-29 | the exception is real: an overlong header is accepted but never written |
| Framing.DecodeIsStable | crates/trlib-core/src/transport/intermediate.rs:16-47 | every answer is repeated under extension, "need n" as long as fewer than n bytes are there |
| Framing.DecodeAdvances | crates/trlib-core/src/transport/abridged.rs:16-53 | "need n" asks for more than is there; every other answer consumes at least one available byte |
| Framing.DecodeFollowsAnnouncement | crates/trlib-core/src/transport/abridged.rs:16-53 | the length announced by the header bytes decides every answer: LimitExceeded if and only if it is whole words and beyond the limit, InvalidLength for zero or broken words, otherwise the frame or how many bytes are missing |
| Framing.OversizedFrameIsRefused | crates/trlib-core/src/transport/intermediate.rs:33-38 | any frame beyond the receiver's limit is refused |
| Framing.FramableExactly | crates/trlib-core/src/transport/abridged.rs:55-70 | which payload lengths each codec frames |
| Framing.Encode | crates/trlib-core/src/transport/abridged.rs:55-97 | writes header and payload at the front of the buffer, or an error without touching it |
| Gateway.ChunkingDoesNotMatter | crates/trlib-core/src/gateway.rs:52-69 | feeding a stream to poll in any chunks, discarding what is consumed, yields the events and the terminating error of the whole stream |
| Gateway.DrainContinues | crates/trlib-core/src/gateway.rs:52-69 | draining a buffer and then the rest with more bytes is draining all at once |
| Gateway.PollIsStable | crates/trlib-core/src/gateway.rs:52-69 | every answer is repeated under extension, "need n" as long as fewer than n bytes are there |
| MessageStream.SentMessagesArrive | crates/trlib-core/src/gateway.rs:52-69 | end to end: for any list of messages whose packets fit the limits, however their framed stream is chunked, the receiver's events open and parse to exactly those messages, in order, with nothing buffered at the end |
| Gateway.SentEnvelopesArrive | crates/trlib-core/src/gateway.rs:52-69 | the events of a stream of framed packets, however it is chunked, are exactly the envelopes of those packets, in order, with nothing buffered at the end |
| SessionDocument.OpensExactlySealedDocuments | crates/trlib-core/src/session.rs:183-221 | a document of the right size opens to a record if and only if, up to the case of its hexadecimal letters, it is what seal writes for that record under the salt it names |
| SessionDocument.SealedDocumentOpens | crates/trlib-core/src/session.rs:149-236 | a sealed document has exactly 762 bytes, its salt is readable without the key, and it opens to the same metadata and key |
| SessionDocument.DecodesExactlyPartsText | crates/trlib-core/src/session.rs:302-355 | salt, ciphertext and tag are decoded exactly from their text |
| SessionDocument.SealingIsInjective | crates/trlib-core/src/session.rs:149-173 | under one key, different salts or records are sealed to different documents |
| SessionDocument.OpensExactlyAuthenticatedDocuments | crates/trlib-core/src/session.rs:183-221 | a document opens to a record if and only if its tag is the HMAC, under the key derived from "TRLib-session-mac-v1\0" and the salt, of "TRLib-session-v1\0", salt and ciphertext, and the ciphertext is the record's; Authentication if and only if it decodes with another tag |
| SessionDocument.AlteredDocumentsCollide | crates/trlib-core/src/session.rs:183-221 | two documents with one salt and tag that both open under one key but differ in the ciphertext exhibit two byte strings with one SHA-256 |
| SessionDocument.DocumentInBytes | crates/trlib-core/src/session.rs:160-168 | where each marker and field of the text stands |
| SessionDocument.PartsTextIsInjective | crates/trlib-core/src/session.rs:160-168 | a document's text determines salt, ciphertext and tag |
| SessionDocument.LayoutIsInjective | crates/trlib-core/src/session.rs:160-168 | the fixed markers keep the three fields apart |
| SessionDocument.LowerCasedLayout | crates/trlib-core/src/session.rs:302-321 | splitting finds exactly the fields of the fixed layout |
| SessionMethods.Seal | crates/trlib-core/src/session.rs:149-173 | succeeds exactly when both buffers are large enough, and then the output starts with the document text; scratch receives the ciphertext whenever it is large enough, even if the output is not; the text carries salt, the right tag and the record's ciphertext |
| SessionMethods.Open | crates/trlib-core/src/session.rs:183-217 | returns a record if and only if tag and ciphertext are right, Authentication if and only if the tag is wrong, and leaves in the scratch prefix exactly the decrypted text, zeros after a tag mismatch, or the ciphertext bytes decoded before a bad digit |
| SessionMethods.ScratchHoldsRecord | crates/trlib-core/src/session.rs:196-217 | when a record is returned the scratch prefix is its text, and after Authentication it is all zero |
| SessionRecord.ParsesExactlyRecordTexts | crates/trlib-core/src/session.rs:249-300 | the record parser accepts exactly the encoder's outputs |
| SessionRecord.RecordInBytes | crates/trlib-core/src/session.rs:249-273 | where each field of the record stands |
| SessionRecord.EncodeRecord | crates/trlib-core/src/session.rs:249-273 | writes the record's 316 bytes at the front of the buffer |
| SessionRecord.ParseRecord | crates/trlib-core/src/session.rs:275-300 | the cursor-based parser computes the record function |
| Hex.DecodesExactlyWhatIsWritten | crates/trlib-core/src/session.rs:323-364 | text decodes to given data if and only if it is the written text up to letter case |
| Hex.Write | crates/trlib-core/src/session.rs:323-330 | the loop appends the lower-case text, or fails when it does not fit |
| Hex.DecodeInto | crates/trlib-core/src/session.rs:332-355 | the loop leaves in the buffer exactly the bytes of the pairs in front of the first bad one |
| Hex.PairsAreGood | crates/trlib-core/src/session.rs:332-355 | decoding succeeds exactly when no pair is bad |
| Hex.TextByDigits | crates/trlib-core/src/session.rs:323-330 | each byte is written as its two digits of 0123456789abcdef, the upper one first |
| AesCtr.MixedTwice | crates/trlib-core/src/session.rs:387-406 | counter mode is an involution for every length, short last block included |
| AesCtr.CountersAreDistinct | crates/trlib-core/src/session.rs:387-406 | different block indices use different counter blocks |
| AesCtr.MixedByte | crates/trlib-core/src/session.rs:387-406 | byte k is combined with byte k mod 16 of the encryption of twelve salt bytes and the big-endian block number |
| AesCtr.ApplyAesCtr | crates/trlib-core/src/session.rs:387-406 | the in-place loop mixes every byte with its key-stream byte; more than 2^32 blocks is LimitExceeded |
| KeyedHash.Pbkdf2OneBlock | crates/trlib-core/src/session.rs:408-422 | the loop computes the first block F of section 5.2 of RFC 8018 |
| KeyedHash.HmacSha256 | crates/trlib-core/src/session.rs:424-462 | equals HMAC as defined in section 2 of RFC 2104 on the concatenated parts |
| KeyedHash.HmacIsNestedHash | crates/trlib-core/src/session.rs:424-462 | HMAC as two nested hashes behind the zero-filled key combined with 0x36 and 0x5c |
| KeyedHash.HmacCollision | crates/trlib-core/src/session.rs:424-462 | two texts with one code under one key exhibit two byte strings with one hash |
| KeyedHash.DerivedKeyIsXorOfChain | crates/trlib-core/src/session.rs:408-422 | the derived block combines a chain of codes that starts from the salt and block number one |
| KeyedHash.DeriveFromPassphrase | crates/trlib-core/src/session.rs:116-130 | zero iterations is an error, otherwise the PBKDF2 block |
| TlCodec.FieldsDecodeUniquely | crates/trlib-core/src/tl/writer.rs:104-123 | prefix-freeness: lists of byte strings whose encodings start the same text are prefixes of each other; with nothing behind them they are equal |
| TlCodec.ReadBytesAfterWrite | crates/trlib-core/src/tl/cursor.rs:182-220 | a byte string of up to 2^24 − 1 bytes is read back from its encoding at any position |
| TlCodec.ReadBytesIsCanonical | crates/trlib-core/src/tl/cursor.rs:182-220 | a span that is read as a byte string is exactly what would be written for it |
| TlCodec.ByteStringInBytes | crates/trlib-core/src/tl/writer.rs:104-123 | up to 253 bytes follow one length byte, more follow 254 and three; zeros fill up to whole words |
| TlCodec.SignedWords | crates/trlib-core/src/tl/writer.rs:75-96 | signed numbers are written in two's complement |
| TlCodec.VectorHeaderExactly | crates/trlib-core/src/tl/cursor.rs:236-246 | a vector header is its identifier and a count up to the limit, LimitExceeded beyond |
| TlCodec.ReadLengthIsCanonical | crates/trlib-core/src/tl/cursor.rs:182-205 | only minimal length prefixes are read |
| TlCodec.ReadU32IsCanonical | crates/trlib-core/src/tl/cursor.rs:113-120 | the four bytes read are those written for the value |
| TlCodec.ReadU64IsCanonical | crates/trlib-core/src/tl/cursor.rs:129-136 | the eight bytes read are those written for the value |
| TlCodec.ReadI32IsCanonical | crates/trlib-core/src/tl/cursor.rs:123-126 | the bytes read as a signed integer are those written for it |
| TlCodec.ReadI64IsCanonical | crates/trlib-core/src/tl/cursor.rs:139-142 | the bytes read as a signed long are those written for it |
| TlCodec.ReadI32AfterWrite | crates/trlib-core/src/tl/cursor.rs:123-126 | signed integers are read back |
| TlCodec.ReadI64AfterWrite | crates/trlib-core/src/tl/cursor.rs:139-142 | signed long integers are read back |
| TlCursor.Cursor.Take | crates/trlib-core/src/tl/cursor.rs:80-98 | yields the next bytes and advances past them, or fails and stays |
| TlCursor.Cursor.ReadBytes | crates/trlib-core/src/tl/cursor.rs:182-220 | computes the reading function, padding checked by a loop, and stands after the last part taken even when it fails |
| TlCursor.Cursor.ReadVectorLength | crates/trlib-core/src/tl/cursor.rs:236-247 | constructor, count and limit; a failure leaves the position after the last word taken |
| TlCursor.Cursor.ExpectConstructor | crates/trlib-core/src/tl/cursor.rs:167-179 | only the expected identifier passes; another one is consumed |
| TlCursor.Cursor.Finish | crates/trlib-core/src/tl/cursor.rs:66-77 | succeeds exactly when nothing is left |
| TlWriter.Writer.WriteAll | crates/trlib-core/src/tl/writer.rs:45-66 | appends the text and keeps the rest of the buffer if and only if it fits |
| TlWriter.Writer.WriteBytes | crates/trlib-core/src/tl/writer.rs:104-123 | appends the padded encoding if and only if it fits; longer values than 2^24 − 1 are refused untouched, and an encoding that does not fit leaves exactly its header and value as far as they fit |
| SchemaRoundTrip.RecoveredExactlyWhenAgreeing | crates/trlib-core/src/tl/schema.rs:122-172 | for every well-formed table and well-typed values, nested objects included, a left-to-right reader driven by the table recovers the values from their text if and only if fields sharing a flag bit are supplied together at every level |
| SchemaRoundTrip.ObjectIsRead | crates/trlib-core/src/tl/schema.rs:122-172 | agreeing well-typed values are read back with whatever follows them |
| SchemaRoundTrip.FieldsAreRead | crates/trlib-core/src/tl/schema.rs:150-172 | the same from any field on, given the flags words read so far |
| SchemaRoundTrip.ReadObjectsAgree | crates/trlib-core/src/tl/schema.rs:128-145 | whatever the reader accepts agrees on shared bits at every level |
| SchemaRoundTrip.UsersAreNotRead | crates/trlib-core/src/tl/schema.rs:208-217 | a non-empty UserIds list is written under another identifier than the schema's and rejected by a reader |
| SchemaRoundTrip.UsersAreReadExactlyWhenNone | crates/trlib-core/src/tl/schema.rs:208-217 | a UserIds list whose count fits 32 bits is read back if and only if it is empty |
| SchemaSugar.DisagreeingValuesAreLost | schemas/telegram_api.tl:347 | a concrete row and well-typed values that disagree on a bit: the text is written but cannot be read back |
| SchemaSugar.OmittedIsSkipped | crates/trlib-core/src/tl/schema.rs:150-165 | leaving out trailing values writes the same text as skipping them |
| SchemaSugar.PeerIsBoxed | crates/trlib-core/src/tl/schema.rs:39-65 | a peer value is written as the boxed object its schema row gives |
| SchemaSugar.ReplyIsBoxed | crates/trlib-core/src/tl/schema.rs:218-222 | a reply value is written as the boxed inputReplyToMessage |
| SchemaNormal.SameText | crates/trlib-core/src/tl/schema.rs:130-247 | values and their normal form — peers and replies as boxed objects, left-out values as skipped, values in the form of the field's type, at every level — have the same text or the same error |
| SchemaNormal.NormalIsRecovered | crates/trlib-core/src/tl/schema.rs:130-247 | whatever form the values are given in, a reader of the text recovers their normal form, if well-typed, if and only if fields sharing a bit agree |
| SchemaNormal.TypedObjectIsNormal | crates/trlib-core/src/tl/schema.rs:130-247 | well-typed values are their own normal form |
| DirectReads.SendIsRead | crates/trlib-core/src/api.rs:523-546 | the text of every messages.sendMessage with a text that fits a byte string is read back: options, boxed peer, boxed reply or none, text, random number, and the remaining fields skipped |
| DirectReads.EditIsRead | crates/trlib-core/src/api.rs:401-421 | the text of every messages.editMessage with a text that fits a byte string is read back, with the peer boxed and the remaining fields skipped |
| DirectReads.FlatIsRead | crates/trlib-core/src/tl/schema.rs:130-247 | for rows whose fields share no bit and values that hold no boxed object, fitting values are read back in their normal form |
| Schema.FlagsWordMeaning | crates/trlib-core/src/tl/schema.rs:128-145 | bit b of a flags word is set if and only if some field gated by b was supplied |
| Schema.SetBitSets | crates/trlib-core/src/tl/schema.rs:134-140 | or-ing a shifted one sets exactly that bit |
| Schema.SetBitOfZero | crates/trlib-core/src/tl/schema.rs:130-145 | bit b alone is 2 to the b |
| Schema.IdentifiersInBytes | crates/trlib-core/src/tl/schema.rs:39-65 | the texts of peers, messages, users, replies, booleans and vectors with their identifiers in numbers |
| Schema.CoercedWords | crates/trlib-core/src/tl/schema.rs:174-178 | a long in an int field is cut to its residue, an int in a long field keeps its value |
| Schema.UnknownOrTooMany | crates/trlib-core/src/tl/schema.rs:120-155 | an unknown identifier, or more values than fields that take one, is a schema error |
| SchemaWriter.Serialize | crates/trlib-core/src/tl/schema.rs:122-172 | the two-pass, recursive serializer appends exactly the object's text; when a value is refused, everything in front of it has been written and the refusal is the error, unless that much did not fit |
| SchemaWriter.ComputeFlags | crates/trlib-core/src/tl/schema.rs:125-148 | the first pass computes every flags word and counts the values |
| SchemaWriter.WriteFields | crates/trlib-core/src/tl/schema.rs:150-171 | the second pass writes the fields in order |
| SchemaWriter.WriteValue | crates/trlib-core/src/tl/schema.rs:174-247 | every pair of type and value writes its text, or is a schema error, or InvalidLength for an overlong string |
| SchemaWriter.WriteInts | crates/trlib-core/src/tl/schema.rs:183-190 | the loop writes header and entries |
| SchemaWriter.WritePeer | crates/trlib-core/src/api.rs:290-317 | constructor and fields of the four peers, shared by both writers |
| SendMessage.WriteSendTextReply | crates/trlib-core/src/api.rs:523-546 | for all arguments emits the bytes the serializer emits for the messages.sendMessage row; an overlong text is refused with everything in front of it written, as the serializer refuses it |
| SendMessage.SendText | schemas/telegram_api.tl:2492 | the serializer's text of that row, with flags derived from options and reply |
| SendMessage.SendFlags | crates/trlib-core/src/api.rs:531-537 | the hand-computed flags word is the one the table gives |
| SendMessage.BuiltOptions | crates/trlib-core/src/api.rs:427-498 | every chain of option builders yields exactly the options it names and sets no other bit |
| SendMessage.EmptyHasNothing | crates/trlib-core/src/api.rs:431-432 | the empty options have no option |
| SendMessage.BuilderSetsOneOption | crates/trlib-core/src/api.rs:434-498 | an option builder sets its option and no other, and no bit outside the options |
| DirectWriters.WriteEditMessageText | crates/trlib-core/src/api.rs:401-421 | the same for messages.editMessage, the overlong text included |
| DirectWriters.EditText | schemas/telegram_api.tl:2539 | the serializer's text of that row |
| DirectWriters.WriteDeleteMessages | crates/trlib-core/src/api.rs:388-397 | the same for messages.deleteMessages |
| DirectWriters.DeleteMessagesText | schemas/telegram_api.tl:2489 | the serializer's text of that row |
| DirectWriters.WriteGetMessages | crates/trlib-core/src/api.rs:364-373 | the same for messages.getMessages |
| DirectWriters.WriteGetHistory | crates/trlib-core/src/api.rs:337-357 | the same for messages.getHistory |
| DirectWriters.GetHistoryText | schemas/telegram_api.tl:2485 | the serializer's text of that row |
| SchemaParser.ParsedFieldsAreWellFormed | tools/tl-prefix-gen/src/main.rs:244-306 | parsed fields have the shape the serializer relies on if and only if there are at most three flags words, every bit is below 32 and no flags word is itself optional |
| SchemaParser.GeneratedTable | tools/tl-prefix-gen/src/main.rs:244-306 | a table parsed from declarations has the shape the serializer relies on if and only if each of its declarations meets that condition |
| SchemaParser.GatesReferBack | tools/tl-prefix-gen/src/main.rs:284-303 | some flags word stands before every optional field, whatever else is wrong with the declaration |
| SchemaParser.GateNamesItsWord | tools/tl-prefix-gen/src/main.rs:284-303 | the field of an optional word has its name, type and bit; the flags word it names was declared before it and, up to 256 of them, is the one at the field's index |
| SchemaParser.FlagsWordCarriesItsIndex | tools/tl-prefix-gen/src/main.rs:267-277 | the field of a flags word carries its number among the flags words, cut to a byte |
| SchemaParser.WordContributes | tools/tl-prefix-gen/src/main.rs:256-305 | every word but a type parameter becomes one field, at the place its position among such words gives |
| SchemaParser.WideBitIsAccepted | tools/tl-prefix-gen/src/main.rs:296-301 | a gate beyond bit 31 passes the generator |
| SchemaParser.ParseFields | tools/tl-prefix-gen/src/main.rs:256-305 | the loop computes the fold over the words |
| SchemaLookup.Lookup | tools/tl-prefix-gen/src/main.rs:475-503 | bisecting the sorted namespaces in turn answers what a linear scan of the declarations in their original order does |
| SchemaLookup.LookupSchema | tools/tl-prefix-gen/src/main.rs:475-503 | the generated metadata lookup by identifier answers what that scan does |
| SchemaLookup.FindMethod | tools/tl-prefix-gen/src/main.rs:451-470 | and so does the generated lookup of methods by name |
| SchemaLookup.Find | tools/tl-prefix-gen/src/main.rs:380-394 | one bisection finds the first entry with the key, if any |
| SchemaLookup.SortKeepsFirst | tools/tl-prefix-gen/src/main.rs:115-118 | the stable sort keeps the first declaration of every key first |
| SchemaLookup.SortSorts | tools/tl-prefix-gen/src/main.rs:368-369 | the sort orders the entries and loses none |
| SchemaLookup.PartitionPoint | tools/tl-prefix-gen/src/main.rs:388 | bisection finds the boundary in a sorted table |
| SchemaLookup.IdsAreOrdered | tools/tl-prefix-gen/src/main.rs:118 | comparison of identifiers is a strict total order |
| SchemaLookup.NamesAreOrdered | tools/tl-prefix-gen/src/main.rs:369 | comparison of names is a strict total order |
| Containers.EntriesPartitionInput | crates/trlib-core/src/service.rs:54-99 | all entries and the end check succeed if and only if the input is exactly the concatenation of the entries' headers and aligned bodies |
| Containers.NestedInBytes | crates/trlib-core/src/service.rs:54-87 | where the fields of an entry stand |
| Containers.MessageContainer.NextMessage | crates/trlib-core/src/service.rs:54-87 | reads one entry; the count goes down even when the entry is bad, and the position is after its last part taken |
| Containers.TakeAll | crates/trlib-core/src/service.rs:54-99 | taking every entry and then finishing answers all messages, or the first error, as the reading of the whole does |
| Containers.MessageContainer.Finish | crates/trlib-core/src/service.rs:90-99 | entries or bytes left over are an error |
| Containers.AcksAreRead | crates/trlib-core/src/service.rs:217-228 | an acknowledgement is read and its elements are the identifiers acknowledged |
| Containers.AcksAreCanonical | crates/trlib-core/src/service.rs:217-228 | nothing but such an acknowledgement, within the limit, is read |
| Containers.GetReadsElement | crates/trlib-core/src/service.rs:123-130 | the indexed access decodes the element at its place |

## Left out

- Error offsets and details: an error is its category; the positions and numbers inside `Error` are not modelled.
- Machine limits of `usize`: lengths are unbounded, so the overflow checks on sums and products of lengths have no counterpart.
- 64-bit sums in the factoriser wrap, as in a release build; a debug build would stop instead.
- SHA-1, SHA-256, the AES block function, Montgomery arithmetic and constant-time comparison: external libraries, taken as functions.
- Correctness of the RSA key pair and any statement about the quality of randomness.
- An entropy source that fails leaves the buffer it was to fill unchanged; the original leaves its content open.
- Zeroization on drop and of temporary copies; wiping that a caller can observe is modelled.
- Borrowing: parsed records, bodies and keys are values here; in the original they point into the caller's buffers.
- Sub-slices: where the original hands out a part of a local buffer, a separate buffer is filled and copied.
- `sort_unstable`, `sort_by` and `partition_point`: modelled by what the standard library documents, the first two as functions.
- UTF-8 validity: strings are byte strings; `read_string` is not part of this model.
- Most schema rows: the theorems hold for any well-formed table; only the rows of the direct writers are written out, with their fields as constants.
- The generator's file handling, line splitting, name mangling and emitted source text: its input here is the words of one declaration, and the sorted tables are values.
- TL types without a value form: lists of boxed objects other than message identifiers can only be written as raw bytes, and no round trip is claimed for raw or empty bodies.
- SchemaWriter.Serialize: does not say how many pieces of a text are left behind when the buffer is too small for it; the writers of single values and byte strings do.
- DirectWriters.WriteEditMessageText: the same.
- SendMessage.WriteSendTextReply: the same.
- PinnedNumbers.HonestServersExist: uses modulus one instead of the compiled-in modulus, because a private operation for that one is only known to the holder of its factors.
- HandshakeMethods.AuthKeyHandshake.AcceptResPq: does not say which pieces of the message are left behind when the buffer is too small.
- HandshakeMethods.AuthKeyHandshake.AcceptServerDh: the same.
- HandshakeMethods.AuthKeyHandshake.Agree: the same.
- HandshakeMethods.AuthKeyHandshake.WriteReqPq: the same.
- SessionMethods.Seal: does not say what the output holds when it is too small.
- Login and update response parsers in `api.rs`, the single-read service objects, `session::file`, feature gating and configuration: straight-line reads and plumbing.
- Stream initialization bytes: two constants.
