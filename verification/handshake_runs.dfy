/** What holds over every sequence of calls a caller can make on one handshake, in any order. */
module HandshakeRuns {
  import opened Outcomes
  import opened Bytes
  import opened Primitives
  import opened AesIge
  import opened NumberTheory
  import opened RandomSource
  import opened RsaPad
  import opened HandshakeMessages
  import opened SessionCrypto
  import opened Handshake

  // Inputs, entropy and buffer sizes are arbitrary and may differ from call to call.
  datatype Call =
    | ResPq(input: bytes, factors: Result<(u32, u32)>, tape: bytes, failure: ErrorKind, capacity: nat)
    | ServerDh(input: bytes, tape: bytes, failure: ErrorKind, capacity: nat)
    | DhGen(input: bytes)
  {
    // The phase in which the call is accepted.
    function Phase(): nat {
      match this
      case ResPq(_, _, _, _, _) => 0
      case ServerDh(_, _, _, _) => 1
      case DhGen(_) => 2
    }
  }

  datatype Reply = Sent(text: bytes) | Done(material: KeyMaterial)

  function Step(suite: Suite, params: Params, h: State, call: Call): (Result<Reply>, State)
    requires params.rsaModulus > 0 && params.dhPrime > 0
  {
    match call
    case ResPq(input, factors, tape, failure, capacity) =>
      var o := AfterResPq(suite, params, h, input, factors, tape, failure, capacity);
      (if o.answer.Ok? then Ok(Sent(o.answer.value)) else Err(o.answer.kind), o.after)
    case ServerDh(input, tape, failure, capacity) =>
      var o := AfterServerDh(suite, params, h, input, tape, failure, capacity);
      (if o.answer.Ok? then Ok(Sent(o.answer.value)) else Err(o.answer.kind), o.after)
    case DhGen(input) =>
      var (answer, after) := AfterDhGen(suite, h, input);
      (if answer.Ok? then Ok(Done(answer.value)) else Err(answer.kind), after)
  }

  // The state after all calls, and the replies of those that succeeded, in order.
  function Run(suite: Suite, params: Params, h: State, calls: seq<Call>): (State, seq<Reply>)
    requires params.rsaModulus > 0 && params.dhPrime > 0
  {
    if calls == [] then (h, [])
    else
      var (before, replies) := Run(suite, params, h, calls[..|calls| - 1]);
      var (reply, after) := Step(suite, params, before, calls[|calls| - 1]);
      (after, if reply.Ok? then replies + [reply.value] else replies)
  }

  // ----- one call -----------------------------------------------------------------------------------

  predicate SameNonces(h: State, h': State) {
    && h'.dcId == h.dcId && h'.nonce == h.nonce && h'.newNonce == h.newNonce
    && (h.phase >= 1 ==> h'.serverNonce == h.serverNonce)
  }

  lemma StepMovesOnePhase(suite: Suite, params: Params, h: State, call: Call)
    requires params.rsaModulus > 0 && params.dhPrime > 0
    ensures var (reply, h') := Step(suite, params, h, call);
      && SameNonces(h, h')
      && (reply.Ok? ==> h.phase == call.Phase() && h'.phase == h.phase + 1)
      && (reply.Err? ==> h'.phase == h.phase)
      && (h.phase != call.Phase() ==> reply == Err(InvalidState) && h' == h)
  {
    hide ReadServerDh, ReadDhInner, CheckDhInner, ReadResPqHead, ReadResPqTail, ReadDhGen, Padded, ReqDhText;
    hide PqInnerText, ClientText, ModPow, InRange, TemporaryAes, ConfirmationHash, KeyId, Salt, Drawn;
  }

  // The first message sent carries the nonces and two factors.
  ghost predicate RequestBehind(h: State, text: bytes) {
    exists p: u32, q: u32, block: bytes ::
      |block| == 256 && text == ReqDhText(h.nonce, h.serverNonce, p, q, block)
  }

  lemma FirstStepRequests(suite: Suite, params: Params, h: State, input: bytes, factors: Result<(u32, u32)>,
      tape: bytes, failure: ErrorKind, capacity: nat)
    requires params.rsaModulus > 0
    requires AfterResPq(suite, params, h, input, factors, tape, failure, capacity).answer.Ok?
    ensures var o := AfterResPq(suite, params, h, input, factors, tape, failure, capacity);
      RequestBehind(o.after, o.answer.value)
  {
    hide ReadResPqHead, ReadResPqTail, Padded, ReqDhText, PqInnerText;
  }

  // The group and the public value of the server passed the checks.
  ghost predicate GroupChecked(params: Params, h: State) {
    h.dhPrime == Be(params.dhPrime, 256) && |h.gA| == 256
    && Pow(2, 1984) <= BeValue(h.gA) <= params.dhPrime - Pow(2, 1984)
  }

  // The key is g_a to the power of a secret whose own public value was sent in this text.
  ghost predicate KeyBehind(suite: Suite, params: Params, h: State, key: AuthKey, text: bytes)
    requires params.dhPrime > 0
  {
    exists g: nat, secret: bytes, padding: bytes :: KeyFrom(suite, params, h, key, text, g, secret, padding)
  }

  ghost predicate KeyFrom(suite: Suite, params: Params, h: State, key: AuthKey, text: bytes, g: nat, secret: bytes,
        padding: bytes)
    requires params.dhPrime > 0
  {
    && 2 <= g <= 7 && |secret| == 256 && |padding| == CLIENT_PADDING
    && Pow(2, 1984) <= ModPow(g, BeValue(secret), params.dhPrime) <= params.dhPrime - Pow(2, 1984)
    && key == Be(ModPow(BeValue(h.gA), BeValue(secret), params.dhPrime), 256)
    && text == ClientText(suite, h, ModPow(g, BeValue(secret), params.dhPrime), padding)
  }

  lemma AgreedKey(suite: Suite, params: Params, h: State, g: nat, tape: bytes, failure: ErrorKind, capacity: nat)
    requires params.dhPrime > 0 && 2 <= g <= 7
    requires Agreed(suite, params, h, g, tape, failure, capacity).answer.Ok?
    ensures var o := Agreed(suite, params, h, g, tape, failure, capacity);
      o.after.dhPrime == h.dhPrime && o.after.gA == h.gA
      && KeyBehind(suite, params, o.after, o.after.authKey, o.answer.value)
  {
    hide ModPow, InRange, Be, BeValue, Pow;
    var (secret, rest) := Drawn(tape, 256, failure);
    RangeInNumerals(params, ModPow(g, BeValue(secret.value), params.dhPrime));
    var (padding, _) := Drawn(rest, CLIENT_PADDING, failure);
    var o := Agreed(suite, params, h, g, tape, failure, capacity);
    assert KeyFrom(suite, params, o.after, o.after.authKey, o.answer.value, g, secret.value, padding.value) by {
      hide IgeEncrypt, TemporaryAes, WithHash, ClientInnerText, SetClientDhText;
    }
  }

  lemma SecondStepAgrees(suite: Suite, params: Params, h: State, input: bytes, tape: bytes, failure: ErrorKind,
        capacity: nat)
    requires params.dhPrime > 0
    requires AfterServerDh(suite, params, h, input, tape, failure, capacity).answer.Ok?
    ensures var o := AfterServerDh(suite, params, h, input, tape, failure, capacity);
      GroupChecked(params, o.after) && KeyBehind(suite, params, o.after, o.after.authKey, o.answer.value)
  {
    hide ReadServerDh, ReadDhInner, TemporaryAes, KeyBehind, Agreed, IgeDecrypt, InRange, Be, BeValue, Pow;
    var encrypted := ReadServerDh(input, h.nonce, h.serverNonce).value;
    var material := TemporaryAes(suite, h.newNonce, h.serverNonce);
    var plain := IgeDecrypt(suite, material.key, material.iv, encrypted);
    var (d, rest) := ReadDhInner(plain[20..], h.nonce, h.serverNonce).value;
    var h' := h.(serverTime := d.serverTime, dhPrime := d.prime, gA := d.ga);
    RangeInNumerals(params, BeValue(d.ga));
    AgreedKey(suite, params, h', d.g, tape, failure, capacity);
  }

  // ----- every run -------------------------------------------------------------------------------------

  ghost predicate Safe(suite: Suite, params: Params, start: State, h: State, replies: seq<Reply>)
    requires params.dhPrime > 0
  {
    && |replies| == h.phase <= 3
    && SameNonces(start, h)
    && (h.phase >= 1 ==> replies[0].Sent? && RequestBehind(h, replies[0].text))
    && (h.phase >= 2 ==> replies[1].Sent? && GroupChecked(params, h))
    && (h.phase == 2 ==> KeyBehind(suite, params, h, h.authKey, replies[1].text))
    && (h.phase == 3 ==>
          && replies[2].Done?
          && KeyBehind(suite, params, h, replies[2].material.authKey, replies[1].text)
          && h.authKey == Zeros(256))
  }

  // Whatever is called in whatever order, the successful calls are exactly the first few of
  // resPQ, server_DH_params_ok, dh_gen_ok; the key returned at the end, which is returned once, is g_a
  // to the secret whose public value was sent.
  lemma {:induction false} EveryRunIsSafe(suite: Suite, params: Params, start: State, calls: seq<Call>)
    requires params.rsaModulus > 0 && params.dhPrime > 0 && start.phase == 0
    ensures var (h, replies) := Run(suite, params, start, calls);
      Safe(suite, params, start, h, replies)
  {
    hide Step, KeyBehind, GroupChecked, RequestBehind;
    if calls != [] {
      EveryRunIsSafe(suite, params, start, calls[..|calls| - 1]);
      var (h, replies) := Run(suite, params, start, calls[..|calls| - 1]);
      StepKeepsSafety(suite, params, start, h, replies, calls[|calls| - 1]);
    }
  }

  // From any point of a run on, the nonces stay, the server's as soon as it was accepted, and the
  // phase counts the successes.
  lemma {:induction false} RunKeepsNonces(suite: Suite, params: Params, h: State, calls: seq<Call>)
    requires params.rsaModulus > 0 && params.dhPrime > 0
    ensures var (h', replies) := Run(suite, params, h, calls);
      SameNonces(h, h') && h'.phase == h.phase + |replies|
  {
    hide Step;
    if calls != [] {
      var (before, replies) := Run(suite, params, h, calls[..|calls| - 1]);
      var (reply, after) := Step(suite, params, before, calls[|calls| - 1]);
      RunKeepsNonces(suite, params, h, calls[..|calls| - 1]);
      StepMovesOnePhase(suite, params, before, calls[|calls| - 1]);
    }
  }

  lemma RequestKept(h: State, h': State, text: bytes)
    requires RequestBehind(h, text) && h'.nonce == h.nonce && h'.serverNonce == h.serverNonce
    ensures RequestBehind(h', text)
  {
    hide ReqDhText;
  }

  lemma KeyKept(suite: Suite, params: Params, h: State, h': State, key: AuthKey, text: bytes)
    requires params.dhPrime > 0 && KeyBehind(suite, params, h, key, text)
    requires SameNonces(h, h') && h.phase >= 1 && h'.gA == h.gA
    ensures KeyBehind(suite, params, h', key, text)
  {
    hide ModPow, Be, BeValue, Pow;
    var g, secret, padding :| KeyFrom(suite, params, h, key, text, g, secret, padding);
    assert KeyFrom(suite, params, h', key, text, g, secret, padding) by {
      hide IgeEncrypt, TemporaryAes, WithHash, ClientInnerText, SetClientDhText;
    }
  }

  // Before the key is agreed a failing call may store something; afterwards it changes nothing.
  lemma FailureKeepsKey(suite: Suite, params: Params, h: State, call: Call)
    requires params.rsaModulus > 0 && params.dhPrime > 0 && h.phase >= 2
    ensures var (reply, h') := Step(suite, params, h, call);
      reply.Err? ==> h' == h
  {
    hide ReadDhGen, ConfirmationHash, KeyId, Salt;
  }

  lemma LastStepKeepsSafety(suite: Suite, params: Params, start: State, h: State, replies: seq<Reply>, input: bytes)
    requires params.rsaModulus > 0 && params.dhPrime > 0 && start.phase == 0
    requires Safe(suite, params, start, h, replies) && AfterDhGen(suite, h, input).0.Ok?
    ensures var (material, h') := AfterDhGen(suite, h, input);
      Safe(suite, params, start, h', replies + [Done(material.value)])
  {
    hide RequestBehind, KeyBehind, GroupChecked, ReadDhGen, ConfirmationHash, KeyId, Salt;
    var (material, h') := AfterDhGen(suite, h, input);
    RequestKept(h, h', replies[0].text);
    KeyKept(suite, params, h, h', h.authKey, replies[1].text);
    assert GroupChecked(params, h') by {
      GroupKept(params, h, h');
    }
  }

  lemma GroupKept(params: Params, h: State, h': State)
    requires GroupChecked(params, h) && h'.gA == h.gA && h'.dhPrime == h.dhPrime
    ensures GroupChecked(params, h')
  {
  }

  lemma FirstStepKeepsSafety(suite: Suite, params: Params, start: State, h: State, replies: seq<Reply>,
      input: bytes, factors: Result<(u32, u32)>, tape: bytes, failure: ErrorKind, capacity: nat)
    requires params.rsaModulus > 0 && params.dhPrime > 0 && start.phase == 0
    requires Safe(suite, params, start, h, replies)
    requires AfterResPq(suite, params, h, input, factors, tape, failure, capacity).answer.Ok?
    ensures var o := AfterResPq(suite, params, h, input, factors, tape, failure, capacity);
      Safe(suite, params, start, o.after, replies + [Sent(o.answer.value)])
  {
    hide AfterResPq, RequestBehind, KeyBehind, GroupChecked;
    StepMovesOnePhase(suite, params, h, ResPq(input, factors, tape, failure, capacity));
    FirstStepRequests(suite, params, h, input, factors, tape, failure, capacity);
  }

  lemma SecondStepKeepsSafety(suite: Suite, params: Params, start: State, h: State, replies: seq<Reply>,
      input: bytes, tape: bytes, failure: ErrorKind, capacity: nat)
    requires params.rsaModulus > 0 && params.dhPrime > 0 && start.phase == 0
    requires Safe(suite, params, start, h, replies)
    requires AfterServerDh(suite, params, h, input, tape, failure, capacity).answer.Ok?
    ensures var o := AfterServerDh(suite, params, h, input, tape, failure, capacity);
      Safe(suite, params, start, o.after, replies + [Sent(o.answer.value)])
  {
    hide AfterServerDh, RequestBehind, KeyBehind, GroupChecked;
    StepMovesOnePhase(suite, params, h, ServerDh(input, tape, failure, capacity));
    SecondStepAgrees(suite, params, h, input, tape, failure, capacity);
    RequestKept(h, AfterServerDh(suite, params, h, input, tape, failure, capacity).after, replies[0].text);
  }

  lemma FailedStepKeepsSafety(suite: Suite, params: Params, start: State, h: State, replies: seq<Reply>, call: Call)
    requires params.rsaModulus > 0 && params.dhPrime > 0 && start.phase == 0
    requires Safe(suite, params, start, h, replies) && Step(suite, params, h, call).0.Err?
    ensures Safe(suite, params, start, Step(suite, params, h, call).1, replies)
  {
    hide Step, RequestBehind, KeyBehind, GroupChecked;
    StepMovesOnePhase(suite, params, h, call);
    if h.phase >= 2 {
      FailureKeepsKey(suite, params, h, call);
    } else if h.phase == 1 {
      RequestKept(h, Step(suite, params, h, call).1, replies[0].text);
    }
  }

  lemma StepKeepsSafety(suite: Suite, params: Params, start: State, h: State, replies: seq<Reply>, call: Call)
    requires params.rsaModulus > 0 && params.dhPrime > 0 && start.phase == 0
    requires Safe(suite, params, start, h, replies)
    ensures var (reply, h') := Step(suite, params, h, call);
      Safe(suite, params, start, h', if reply.Ok? then replies + [reply.value] else replies)
  {
    hide Safe, AfterResPq, AfterServerDh, AfterDhGen;
    if Step(suite, params, h, call).0.Err? {
      FailedStepKeepsSafety(suite, params, start, h, replies, call);
    } else {
      match call {
        case ResPq(input, factors, tape, failure, capacity) =>
          FirstStepKeepsSafety(suite, params, start, h, replies, input, factors, tape, failure, capacity);
        case ServerDh(input, tape, failure, capacity) =>
          SecondStepKeepsSafety(suite, params, start, h, replies, input, tape, failure, capacity);
        case DhGen(input) =>
          LastStepKeepsSafety(suite, params, start, h, replies, input);
      }
    }
  }
}
