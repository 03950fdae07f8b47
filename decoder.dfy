/** What a `decodeRect` call does, as a value: the decoder state it
    leaves, where the read cursor of the receive queue ends, the display
    calls made, and its result (`Ok(false)` when it must be called again
    with more data, `Ok(true)` when the rectangle is done, `Err` when it
    throws). */
module Decoder {
  import opened Bytes
  import opened Display

  /** A decoder run from byte `at` of everything received, with the
      display calls `log` made so far: the state it leaves, where the read
      cursor ends, the whole log, and the result. */
  datatype Run<S> = Run(state: S, at: nat, log: seq<Call>, result: Result<bool>)

  /** What one step consumes from the unread bytes and draws, as a value. */
  datatype Outcome<S> = Outcome(state: S, consumed: nat, calls: seq<Call>, result: Result<bool>)

  /** An outcome preceded by `k` bytes consumed before it. */
  function After<S>(k: nat, o: Outcome<S>): (r: Outcome<S>)
    ensures r.state == o.state && r.consumed == o.consumed + k && r.calls == o.calls && r.result == o.result
  {
    o.(consumed := o.consumed + k)
  }

  /** Outcome `o1` of a call that returned false, followed by outcome `o2`
      of the next call on the rest of the bytes. */
  function Then<S>(o1: Outcome<S>, o2: Outcome<S>): (r: Outcome<S>)
    ensures r.state == o2.state && r.consumed == o1.consumed + o2.consumed
    ensures r.calls == o1.calls + o2.calls && r.result == o2.result
  {
    Outcome(o2.state, o1.consumed + o2.consumed, o1.calls + o2.calls, o2.result)
  }
}
