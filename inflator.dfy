/** A persistent DEFLATE stream, seen as an abstract source of
    decompressed bytes.

    `codec(history, chunk)` is the output that compressed `chunk` yields
    when it follows the chunks in `history` on the same stream since the
    last reset; the decompression algorithm itself is not part of this
    model. */
module Inflator {
  import opened Bytes

  type Codec = (seq<seq<byte>>, seq<byte>) -> seq<byte>

  /** The stream as a value: the chunks fed since the last reset and the
      decompressed bytes of the staged input not yet handed out. */
  datatype ZState = ZState(history: seq<seq<byte>>, avail: seq<byte>)

  /** setInput(chunk) on a stream in state `z`: the new chunk replaces
      whatever was staged before. */
  function Feed(z: ZState, codec: Codec, chunk: seq<byte>): (r: ZState)
    ensures r.history == z.history + [chunk] && r.avail == codec(z.history, chunk)
  {
    ZState(z.history + [chunk], codec(z.history, chunk))
  }

  /** The staged chunk of a Tight or ZRLE block, then inflate(n) and, when
      that succeeds, setInput(null): the `n` bytes and the stream left
      behind, or an error with the stream as the failed inflate left it. */
  function InflateBlock(z: ZState, codec: Codec, chunk: seq<byte>, n: nat): (r: (ZState, Result<seq<byte>>))
    ensures r.0.history == z.history + [chunk]
    ensures r.1.Ok? ==> |r.1.value| == n && r.0.avail == []
    ensures r.1.Ok? <==> n <= |codec(z.history, chunk)|
    ensures r.1.Ok? ==> r.1.value == codec(z.history, chunk)[..n]
  {
    var f := Feed(z, codec, chunk);
    if n > |f.avail| then (f, Err("Incomplete zlib block"))
    else (f.(avail := []), Ok(f.avail[..n]))
  }

  class Inflator {
    const codec: Codec
    /** Compressed chunks fed since the last reset. */
    var history: seq<seq<byte>>
    /** Decompressed bytes of the staged input not yet handed out. */
    var avail: seq<byte>

    function State(): ZState
      reads this
    {
      ZState(history, avail)
    }

    constructor(codec: Codec)
      ensures this.codec == codec && history == [] && avail == []
    {
      this.codec := codec;
      history := [];
      avail := [];
    }

    /** reset(): a fresh stream with no history. */
    method Reset()
      modifies this
      ensures history == [] && avail == []
    {
      history := [];
      avail := [];
    }

    /** setInput(data) stages a chunk in place of the previous one;
        setInput(null) drops what is staged. */
    method SetInput(chunk: Option<seq<byte>>)
      modifies this
      ensures chunk.Some? ==> State() == Feed(old(State()), codec, chunk.value)
      ensures chunk.None? ==> history == old(history) && avail == []
    {
      match chunk {
        case Some(c) =>
          avail := codec(history, c);
          history := history + [c];
        case None =>
          avail := [];
      }
    }

    /** inflate(n): exactly `n` more bytes, or an error when the staged
        input cannot produce them. */
    method Inflate(n: nat) returns (r: Result<seq<byte>>)
      modifies this
      ensures history == old(history)
      ensures n <= |old(avail)| ==> r == Ok(old(avail)[..n]) && avail == old(avail)[n..]
      ensures n > |old(avail)| ==> r == Err("Incomplete zlib block") && avail == old(avail)
    {
      if n > |avail| {
        return Err("Incomplete zlib block");
      }
      r := Ok(avail[..n]);
      avail := avail[n..];
    }

    /** The inflate/setInput sequence of one compressed block. */
    method InflateChunk(chunk: seq<byte>, n: nat) returns (r: Result<seq<byte>>)
      modifies this
      ensures (State(), r) == InflateBlock(old(State()), codec, chunk, n)
    {
      ghost var f := Feed(State(), codec, chunk);
      SetInput(Some(chunk));
      assert State() == f;
      r := Inflate(n);
      if r.Err? {
        assert State() == f;
        return;
      }
      SetInput(None);
      assert State() == f.(avail := []);
    }
  }
}
