/** The caller's entropy callback: an arbitrary stream of bytes that may run dry. */
module RandomSource {
  import opened Outcomes
  import opened Bytes

  // What a request for n bytes yields, and what the stream still holds after it.
  function Drawn(tape: bytes, n: nat, failure: ErrorKind): (r: (Result<bytes>, bytes))
    ensures r.0.Ok? ==> |r.0.value| == n
  {
    if n <= |tape| then (Ok(tape[..n]), tape[n..]) else (Err(failure), tape)
  }

  class Source {
    var tape: bytes
    const failure: ErrorKind

    constructor (tape: bytes, failure: ErrorKind)
      ensures this.tape == tape && this.failure == failure
    {
      this.tape := tape;
      this.failure := failure;
    }

    method Fill(n: nat) returns (r: Result<bytes>)
      modifies this
      ensures (r, tape) == Drawn(old(tape), n, failure)
    {
      var (drawn, rest) := Drawn(tape, n, failure);
      tape := rest;
      return drawn;
    }
  }
}
