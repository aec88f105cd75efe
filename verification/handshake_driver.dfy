/** Driving a handshake object through messages that arrive in any order: the object runs as the state machine does. */
module HandshakeDriver {
  import opened Outcomes
  import opened Bytes
  import opened Primitives
  import opened RandomSource
  import opened Handshake
  import opened HandshakeMethods
  import opened HandshakeRuns

  datatype Message = ResPqMessage(input: bytes) | ServerDhMessage(input: bytes) | DhGenMessage(input: bytes)

  // The call a message leads to, with this much entropy and this much room for the answer.
  predicate CallFor(message: Message, call: Call, tape: bytes, failure: ErrorKind, capacity: nat) {
    match call
    case ResPq(input, _, t, f, c) => message == ResPqMessage(input) && t == tape && f == failure && c == capacity
    case ServerDh(input, t, f, c) => message == ServerDhMessage(input) && t == tape && f == failure && c == capacity
    case DhGen(input) => message == DhGenMessage(input)
  }

  // The number was factored as the factoriser does, if the call got that far.
  ghost predicate HonestFactors(h: State, call: Call) {
    call.ResPq? && h.phase == 0 ==> FactorsOffered(h.nonce, call.input, call.factors)
  }

  // The entropy left after a call, and after all calls of a run.
  function StepTape(suite: Suite, params: Params, h: State, call: Call, tape: bytes): bytes
    requires params.rsaModulus > 0 && params.dhPrime > 0
  {
    match call
    case ResPq(input, factors, t, failure, capacity) => AfterResPq(suite, params, h, input, factors, t, failure, capacity).tape
    case ServerDh(input, t, failure, capacity) => AfterServerDh(suite, params, h, input, t, failure, capacity).tape
    case DhGen(_) => tape
  }

  function RunTape(suite: Suite, params: Params, h: State, calls: seq<Call>, tape: bytes): bytes
    requires params.rsaModulus > 0 && params.dhPrime > 0
  {
    if calls == [] then tape
    else
      var earlier, last := calls[..|calls| - 1], calls[|calls| - 1];
      StepTape(suite, params, Run(suite, params, h, earlier).0, last, RunTape(suite, params, h, earlier, tape))
  }

  // Each call is the one its message leads to, in the state and with the entropy the calls before it left.
  ghost predicate CallsFor(suite: Suite, params: Params, h: State, messages: seq<Message>, calls: seq<Call>, tape: bytes,
        failure: ErrorKind, capacity: nat)
    requires params.rsaModulus > 0 && params.dhPrime > 0
    decreases |calls|
  {
    && |messages| == |calls|
    && (calls == [] ||
        var n := |calls| - 1;
        && CallsFor(suite, params, h, messages[..n], calls[..n], tape, failure, capacity)
        && CallFor(messages[n], calls[n], RunTape(suite, params, h, calls[..n], tape), failure, capacity)
        && HonestFactors(Run(suite, params, h, calls[..n]).0, calls[n]))
  }

  lemma SentText(was: bytes, now: bytes, answer: Result<bytes>, r: Result<nat>)
    requires Delivers(was, now, answer, r) && r.Ok?
    ensures r.value <= |now| && answer == Ok(now[..r.value])
  {
    hide Splice;
    assert now[..r.value] == now[0..0 + |answer.value|];
  }

  method Feed(handshake: AuthKeyHandshake, suite: Suite, params: Params, message: Message, random: Source,
        output: array<byte>)
    returns (reply: Result<Reply>, ghost call: Call)
    requires params.Valid()
    modifies handshake, random, output
    ensures CallFor(message, call, old(random.tape), random.failure, output.Length)
    ensures HonestFactors(old(handshake.Current()), call)
    ensures (reply, handshake.Current()) == Step(suite, params, old(handshake.Current()), call)
    ensures random.tape == StepTape(suite, params, old(handshake.Current()), call, old(random.tape))
  {
    hide AfterResPq, AfterServerDh, AfterDhGen, FactorsOffered, Delivers, Pow;
    ghost var tape, was := random.tape, output[..];
    ghost var h := handshake.Current();
    match message {
      case ResPqMessage(input) =>
        var r, factors := handshake.AcceptResPq(suite, params, input, random, output);
        call := ResPq(input, factors, tape, random.failure, output.Length);
        ghost var answer := AfterResPq(suite, params, h, input, factors, tape, random.failure, output.Length).answer;
        reply := Reported(was, answer, r, output);
      case ServerDhMessage(input) =>
        var r := handshake.AcceptServerDh(suite, params, input, random, output);
        call := ServerDh(input, tape, random.failure, output.Length);
        ghost var answer := AfterServerDh(suite, params, h, input, tape, random.failure, output.Length).answer;
        reply := Reported(was, answer, r, output);
      case DhGenMessage(input) =>
        var r := handshake.Finish(suite, input);
        call := DhGen(input);
        reply := if r.Ok? then Ok(Done(r.value)) else Err(r.kind);
    }
  }

  // The answer found in the buffer.
  method Reported(ghost was: bytes, ghost answer: Result<bytes>, r: Result<nat>, output: array<byte>)
    returns (reply: Result<Reply>)
    requires Delivers(was, output[..], answer, r)
    ensures reply == if answer.Ok? then Ok(Sent(answer.value)) else Err(answer.kind)
  {
    hide Splice;
    if r.Err? {
      return Err(r.kind);
    }
    SentText(was, output[..], answer, r);
    return Ok(Sent(output[..r.value]));
  }

  // Handed any messages in any order, the object ends where the run of their calls ends, answers what the run
  // answers, and what it has sent and returned is safe.
  method Drive(handshake: AuthKeyHandshake, suite: Suite, params: Params, messages: seq<Message>, random: Source,
        output: array<byte>)
    returns (replies: seq<Reply>, ghost calls: seq<Call>)
    requires params.Valid()
    modifies handshake, random, output
    ensures CallsFor(suite, params, old(handshake.Current()), messages, calls, old(random.tape), random.failure, output.Length)
    ensures (handshake.Current(), replies) == Run(suite, params, old(handshake.Current()), calls)
    ensures random.tape == RunTape(suite, params, old(handshake.Current()), calls, old(random.tape))
    ensures old(handshake.phase) == 0 ==>
      Safe(suite, params, old(handshake.Current()), handshake.Current(), replies)
  {
    hide Step, StepTape, CallFor, HonestFactors, Safe, Pow;
    ghost var start, tape := handshake.Current(), random.tape;
    replies, calls := [], [];
    var i := 0;
    while i < |messages|
      invariant 0 <= i == |calls| <= |messages|
      invariant CallsFor(suite, params, start, messages[..i], calls, tape, random.failure, output.Length)
      invariant (handshake.Current(), replies) == Run(suite, params, start, calls)
      invariant random.tape == RunTape(suite, params, start, calls, tape)
    {
      var reply, call := Feed(handshake, suite, params, messages[i], random, output);
      assert messages[..i + 1][..i] == messages[..i] && (calls + [call])[..i] == calls;
      calls := calls + [call];
      if reply.Ok? {
        replies := replies + [reply.value];
      }
      i := i + 1;
    }
    assert messages[..i] == messages;
    if start.phase == 0 {
      EveryRunIsSafe(suite, params, start, calls);
    }
  }
}
