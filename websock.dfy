/** The parts of the socket wrapper the decoders and the RA2 handshake
    use: a receive queue with a read cursor, and a send queue that is
    written to the transport on flush. */
module Websock {
  import opened Bytes

  class Socket {
    /** Every byte received so far. */
    var data: seq<byte>
    /** The read cursor: bytes before it have been consumed. */
    var index: nat
    /** Bytes pushed but not yet written to the transport. */
    var sendQueue: seq<byte>
    /** Bytes written to the transport, in order. */
    var sent: seq<byte>

    ghost predicate Valid()
      reads this
    {
      index <= |data|
    }

    /** The bytes still to be read. */
    function Unread(): (u: seq<byte>)
      reads this
      requires Valid()
      ensures |u| == |data| - index
    {
      data[index..]
    }

    constructor()
      ensures Valid() && data == [] && index == 0 && sendQueue == [] && sent == []
    {
      data := [];
      index := 0;
      sendQueue := [];
      sent := [];
    }

    /** rQwait: true when fewer than `need` bytes are unread. In that case
        the cursor moves back by `goback`, which is an error if it would
        pass the start of the queue. Enough data leaves everything alone. */
    method Wait(need: nat, goback: nat) returns (r: Result<bool>)
      requires Valid()
      modifies this
      ensures Valid() && data == old(data) && sendQueue == old(sendQueue) && sent == old(sent)
      ensures |old(Unread())| >= need ==> r == Ok(false) && index == old(index)
      ensures |old(Unread())| < need && goback > old(index) ==> r.Err? && index == old(index)
      ensures |old(Unread())| < need && goback <= old(index) ==>
                r == Ok(true) && index == old(index) - goback
    {
      if |data| - index < need {
        if goback > 0 {
          if goback > index {
            return Err("rQwait cannot backup " + "more than the bytes already read");
          }
          index := index - goback;
        }
        return Ok(true);
      }
      return Ok(false);
    }

    /** rQwait without a `goback`, which cannot fail: true when fewer
        than `need` bytes are unread. */
    method Lacks(need: nat) returns (short: bool)
      requires Valid()
      ensures short <==> |Unread()| < need
    {
      short := |data| - index < need;
    }

    method Peek8() returns (b: byte)
      requires Valid() && index < |data|
      ensures b == data[index]
    {
      b := data[index];
    }

    method PeekBytes(n: nat) returns (s: seq<byte>)
      requires Valid() && index + n <= |data|
      ensures s == Unread()[..n]
    {
      s := data[index..index + n];
    }

    method Shift8() returns (b: byte)
      requires Valid() && index < |data|
      modifies this
      ensures Valid() && data == old(data) && sendQueue == old(sendQueue) && sent == old(sent)
      ensures b == old(data[index]) && index == old(index) + 1
    {
      b := data[index];
      index := index + 1;
    }

    /** rQshift16: two bytes, big-endian. */
    method Shift16() returns (v: nat)
      requires Valid() && index + 2 <= |data|
      modifies this
      ensures Valid() && data == old(data) && sendQueue == old(sendQueue) && sent == old(sent)
      ensures v == U16(old(data[index]), old(data[index + 1])) && index == old(index) + 2
    {
      v := U16(data[index], data[index + 1]);
      index := index + 2;
    }

    /** rQshift32: four bytes, big-endian. */
    method Shift32() returns (v: nat)
      requires Valid() && index + 4 <= |data|
      modifies this
      ensures Valid() && data == old(data) && sendQueue == old(sendQueue) && sent == old(sent)
      ensures v == U32(old(Unread()[..4])) && index == old(index) + 4
    {
      v := U32(data[index..index + 4]);
      index := index + 4;
    }

    /** rQshiftBytes: the next `n` bytes as a copy. */
    method ShiftBytes(n: nat) returns (s: seq<byte>)
      requires Valid() && index + n <= |data|
      modifies this
      ensures Valid() && data == old(data) && sendQueue == old(sendQueue) && sent == old(sent)
      ensures s == old(Unread()[..n]) && index == old(index) + n
      ensures Unread() == old(Unread()[n..])
    {
      s := data[index..index + n];
      index := index + n;
    }

    /** rQshiftBytes on a queue that may hold fewer than `n` bytes, cut
        at the end of the queued data. The source's receive buffer is
        larger than its data, so there a shift past the end returns stale
        bytes of the buffer and moves the read index past the data; this
        model does not keep the buffer beyond the data. */
    method ShiftAtMost(n: nat) returns (s: seq<byte>)
      requires Valid()
      modifies this
      ensures Valid() && data == old(data) && sendQueue == old(sendQueue) && sent == old(sent)
      ensures s == old(Unread())[..Min(n, |old(Unread())|)]
      ensures index == old(index) + Min(n, |old(Unread())|)
    {
      var k := Min(n, |data| - index);
      s := data[index..index + k];
      index := index + k;
    }

    method SkipBytes(n: nat)
      requires Valid() && index + n <= |data|
      modifies this
      ensures Valid() && data == old(data) && sendQueue == old(sendQueue) && sent == old(sent)
      ensures index == old(index) + n
    {
      index := index + n;
    }

    /** rQshiftTo: copy the next `n` bytes to the start of `target`. */
    method ShiftTo(target: array<byte>, n: nat)
      requires Valid() && index + n <= |data| && n <= target.Length
      modifies this, target
      ensures Valid() && data == old(data) && sendQueue == old(sendQueue) && sent == old(sent)
      ensures index == old(index) + n
      ensures target[..] == old(Unread()[..n]) + old(target[n..])
    {
      var chunk := data[index..index + n];
      var i := 0;
      while i < n
        invariant 0 <= i <= n
        invariant forall k :: 0 <= k < i ==> target[k] == chunk[k]
        invariant forall k :: i <= k < target.Length ==> target[k] == old(target[k])
        modifies target
      {
        target[i] := chunk[i];
        i := i + 1;
      }
      assert target[..] == chunk + old(target[n..]);
      index := index + n;
    }

    method PushBytes(bytes: seq<byte>)
      requires Valid()
      modifies this
      ensures Valid() && data == old(data) && index == old(index) && sent == old(sent)
      ensures sendQueue == old(sendQueue) + bytes
    {
      sendQueue := sendQueue + bytes;
    }

    /** flush: one write of everything queued. */
    method Flush()
      requires Valid()
      modifies this
      ensures Valid() && data == old(data) && index == old(index)
      ensures sendQueue == [] && sent == old(sent) + old(sendQueue)
    {
      sent := sent + sendQueue;
      sendQueue := [];
    }
  }
}
