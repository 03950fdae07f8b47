/** The H.264 encoding: each rectangle carries a length, flags and an
    Annex B byte stream. The stream is cut into frames at slice NAL units
    and handed to a per-region video decoder; at most 64 regions keep a
    decoder, the least recently used one giving way.

    The browser's video decoder is modelled by its state (none, configured
    with a codec string, closed) and by the log of chunks it was given; the
    clock by a timestamp parameter. */
module H264 {
  import opened Bytes
  import opened Display
  import opened Websock
  import Strings
  import Decoder

  /* ---------- The byte-stream parser ---------- */

  /** `data[j] == v`, false past the end of the data (where the source
      reads `undefined`). */
  predicate At(data: seq<byte>, j: nat, v: byte)
  {
    j < |data| && data[j] == v
  }

  /** `_getStartSequenceLen`: 4 for 00 00 00 01, 3 for 00 00 01, else 0. */
  function StartLen(data: seq<byte>, i: nat): (n: nat)
    ensures n == 0 || n == 3 || n == 4
    ensures n != 0 ==> i + n <= |data|
  {
    if At(data, i, 0) && At(data, i + 1, 0) && At(data, i + 2, 0) && At(data, i + 3, 1) then 4
    else if At(data, i, 0) && At(data, i + 1, 0) && At(data, i + 2, 1) then 3
    else 0
  }

  lemma {:induction false} StartCodes(data: seq<byte>, i: nat)
    ensures StartLen(data, i) == 4 <==> i + 4 <= |data| && data[i..i + 4] == [0, 0, 0, 1]
    ensures StartLen(data, i) == 3 <==>
              !(i + 4 <= |data| && data[i..i + 4] == [0, 0, 0, 1]) && i + 3 <= |data| && data[i..i + 3] == [0, 0, 1]
  {
    if i + 4 <= |data| && data[i..i + 4] == [0, 0, 0, 1] {
      assert data[i] == data[i..i + 4][0] && data[i + 1] == data[i..i + 4][1];
      assert data[i + 2] == data[i..i + 4][2] && data[i + 3] == data[i..i + 4][3];
    }
    if i + 3 <= |data| && data[i..i + 3] == [0, 0, 1] {
      assert data[i] == data[i..i + 3][0] && data[i + 1] == data[i..i + 3][1] && data[i + 2] == data[i..i + 3][2];
    }
  }

  /** `_indexOfNextNalUnit`: the first start code at or after `i`, `None`
      where the source returns -1. */
  function NextUnit(data: seq<byte>, i: nat): (r: Option<nat>)
    ensures r.Some? ==> i <= r.value < |data| && StartLen(data, r.value) != 0
    decreases |data| - i
  {
    if i >= |data| then None
    else if StartLen(data, i) != 0 then Some(i)
    else NextUnit(data, i + 1)
  }

  /** The start code found is the first one. */
  lemma {:induction false} NextUnitFirst(data: seq<byte>, i: nat)
    ensures var r := NextUnit(data, i);
            (r.Some? ==> forall k :: i <= k < r.value ==> StartLen(data, k) == 0) &&
            (r.None? ==> forall k :: i <= k < |data| ==> StartLen(data, k) == 0)
    decreases |data| - i
  {
    if i < |data| && StartLen(data, i) == 0 {
      NextUnitFirst(data, i + 1);
    }
  }

  /** Where the parser goes after a NAL unit whose header is at `i`. */
  function NextIndex(data: seq<byte>, i: nat): (j: nat)
    ensures i <= j <= |data| || (i > |data| && j == |data|)
    ensures j == |data| || StartLen(data, j) != 0
  {
    match NextUnit(data, i)
    case None => |data|
    case Some(j) => j
  }

  /** The three bytes after a sequence parameter set's header;
      `None` stands for a byte past the end of the data. */
  datatype Sps = Sps(profileIdc: Option<byte>, constraintSet: Option<byte>, levelIdc: Option<byte>)

  function ByteAt(data: seq<byte>, j: nat): Option<byte>
  {
    if j < |data| then Some(data[j]) else None
  }

  /** What `_parseNalUnit` reports about a unit. */
  datatype Nal = Nal(slice: bool, key: bool)

  datatype NalOut = NalOut(result: Result<Nal>, sps: Option<Sps>)

  /** `_parseNalUnit` with its header at `j`. A header past the end reads
      as `undefined`, whose bit tests give 0: an unhandled type 0. */
  function NalInfo(data: seq<byte>, j: nat, sps: Option<Sps>): (r: NalOut)
    ensures r.result.Ok? && r.result.value.key ==> r.result.value.slice
    ensures r.sps == sps || r.sps == Some(Sps(ByteAt(data, j + 1), ByteAt(data, j + 2), ByteAt(data, j + 3)))
  {
    var first := ByteAtOrZero(data, j);
    if first >= 0x80 then NalOut(Err("H264 parsing sanity check failed, forbidden zero bit is set"), sps)
    else
      var unitType := first % 32;
      if unitType == 1 then NalOut(Ok(Nal(true, false)), sps)
      else if unitType == 5 then NalOut(Ok(Nal(true, true)), sps)
      else if unitType == 7 then NalOut(Ok(Nal(false, false)), Some(Sps(ByteAt(data, j + 1), ByteAt(data, j + 2), ByteAt(data, j + 3))))
      else NalOut(Ok(Nal(false, false)), sps)
  }

  /** A frame cut from the stream. */
  datatype Frame = Frame(bytes: seq<byte>, key: bool)

  /** What one `parse` call returns, where it leaves the cursor and the
      SPS fields it leaves recorded. */
  datatype ParseOut = ParseOut(result: Result<Option<Frame>>, index: nat, sps: Option<Sps>)

  /** One NAL unit at the cursor: its start code, its header and where
      the next unit starts. */
  datatype Unit = Unit(result: Result<Nal>, next: nat, sps: Option<Sps>)

  function ReadUnit(data: seq<byte>, index: nat, sps: Option<Sps>): (u: Unit)
    requires index < |data|
    ensures u.result.Ok? ==> index < u.next <= |data| && (u.next == |data| || StartLen(data, u.next) != 0)
  {
    var sl := StartLen(data, index);
    if sl == 0 then Unit(Err("Invalid start sequence in bit stream"), index, sps)
    else
      var n := NalInfo(data, index + sl, sps);
      if n.result.Err? then Unit(Err(n.result.msg), index, n.sps)
      else Unit(n.result, NextIndex(data, index + sl), n.sps)
  }

  /** The loop of `parse`, from cursor `index`, for a frame starting at
      `start`; `isKey` says whether a key slice was seen. */
  function ParseLoop(data: seq<byte>, start: nat, index: nat, isKey: bool, sps: Option<Sps>): (r: ParseOut)
    requires start <= index <= |data|
    ensures index <= r.index <= |data|
    decreases |data| - index, 1
  {
    if index == |data| then
      ParseOut(Ok(if start == index then None else Some(Frame(data[start..index], isKey))), index, sps)
    else ParseUnit(data, start, index, isKey, sps)
  }

  /** One round of the loop of `parse`: the unit at the cursor ends the
      frame, raises, or the loop goes on after it. */
  function ParseUnit(data: seq<byte>, start: nat, index: nat, isKey: bool, sps: Option<Sps>): (r: ParseOut)
    requires start <= index < |data|
    ensures index <= r.index <= |data|
    decreases |data| - index, 0
  {
    var u := ReadUnit(data, index, sps);
    if u.result.Err? then ParseOut(Err(u.result.msg), index, u.sps)
    else
      var key := isKey || u.result.value.key;
      if u.result.value.slice then ParseOut(Ok(Some(Frame(data[start..u.next], key))), u.next, u.sps)
      else ParseLoop(data, start, u.next, key, u.sps)
  }

  /** One `parse` call with the cursor at `index`. */
  function ParseFrom(data: seq<byte>, index: nat, sps: Option<Sps>): ParseOut
    requires index <= |data|
  {
    ParseLoop(data, index, index, false, sps)
  }

  /** A frame is the stretch of the stream from the old cursor to the new
      one, and the new cursor is at the end of the data or at a start
      code: successive calls cut the stream into consecutive,
      non-overlapping frames. */
  lemma {:induction false} ParseFrames(data: seq<byte>, start: nat, index: nat, isKey: bool, sps: Option<Sps>)
    requires start <= index <= |data|
    ensures var r := ParseLoop(data, start, index, isKey, sps);
            r.result.Ok? && r.result.value.Some? ==>
              start < r.index && r.result.value.value.bytes == data[start..r.index] &&
              (r.index == |data| || StartLen(data, r.index) != 0)
    decreases |data| - index
  {
    if index < |data| {
      var u := ReadUnit(data, index, sps);
      if u.result.Ok? && !u.result.value.slice {
        ParseFrames(data, start, u.next, isKey || u.result.value.key, u.sps);
      }
    }
  }

  /** Null is returned exactly when the cursor is already at the end. */
  lemma {:induction false} ParseNull(data: seq<byte>, start: nat, index: nat, isKey: bool, sps: Option<Sps>)
    requires start <= index <= |data|
    ensures ParseLoop(data, start, index, isKey, sps).result == Ok(None) <==> start == |data|
    decreases |data| - index
  {
    if index < |data| {
      var u := ReadUnit(data, index, sps);
      if u.result.Ok? && !u.result.value.slice {
        ParseNull(data, start, u.next, isKey || u.result.value.key, u.sps);
      }
    }
  }

  /** A missing start code at the cursor raises. */
  lemma {:induction false} ParseNeedsStartCode(data: seq<byte>, index: nat, sps: Option<Sps>)
    requires index < |data| && StartLen(data, index) == 0
    ensures ParseFrom(data, index, sps).result.Err?
  {
    assert ParseFrom(data, index, sps) == ParseUnit(data, index, index, false, sps);
  }

  /** A header with the forbidden bit set raises. */
  lemma {:induction false} ParseForbiddenBit(data: seq<byte>, index: nat, sps: Option<Sps>)
    requires index < |data| && StartLen(data, index) != 0
    requires index + StartLen(data, index) < |data| && data[index + StartLen(data, index)] >= 0x80
    ensures ParseFrom(data, index, sps).result.Err?
  {
    assert ParseFrom(data, index, sps) == ParseUnit(data, index, index, false, sps);
  }

  /** A start code followed by a slice header of type 5 (IDR) or 1 makes
      a frame of its own, up to the next start code, and the frame is a key
      frame exactly for type 5. */
  lemma {:induction false} ParseSlice(data: seq<byte>, index: nat, sps: Option<Sps>)
    requires index < |data| && StartLen(data, index) != 0
    requires var j := index + StartLen(data, index);
             j < |data| && data[j] < 0x80 && (data[j] % 32 == 5 || data[j] % 32 == 1)
    ensures var j := index + StartLen(data, index);
            var next := NextIndex(data, j);
            ParseFrom(data, index, sps) == ParseOut(Ok(Some(Frame(data[index..next], data[j] % 32 == 5))), next, sps)
  {
    assert ParseFrom(data, index, sps) == ParseUnit(data, index, index, false, sps);
  }

  /** A sequence parameter set records the three bytes after its header. */
  lemma {:induction false} ParseRecordsSps(data: seq<byte>, index: nat, sps: Option<Sps>)
    requires index < |data| && StartLen(data, index) != 0
    requires var j := index + StartLen(data, index);
             j < |data| && data[j] < 0x80 && data[j] % 32 == 7
    ensures var j := index + StartLen(data, index);
            NalInfo(data, j, sps) == NalOut(Ok(Nal(false, false)), Some(Sps(ByteAt(data, j + 1), ByteAt(data, j + 2), ByteAt(data, j + 3))))
  {
  }

  class H264Parser {
    const data: seq<byte>
    var index: nat
    /** `profileIdc`, `constraintSet` and `levelIdc`, which are set
        together; `None` for null. */
    var sps: Option<Sps>

    constructor(data: seq<byte>)
      ensures this.data == data && index == 0 && sps == None
    {
      this.data := data;
      index := 0;
      sps := None;
    }

    method GetStartSequenceLen(i: nat) returns (n: nat)
      ensures n == StartLen(data, i)
    {
      if At(data, i, 0) && At(data, i + 1, 0) && At(data, i + 2, 0) && At(data, i + 3, 1) {
        return 4;
      }
      if At(data, i, 0) && At(data, i + 1, 0) && At(data, i + 2, 1) {
        return 3;
      }
      return 0;
    }

    /** The `for` loop of `_indexOfNextNalUnit`; -1 when there is none. */
    method IndexOfNextNalUnit(i: nat) returns (j: int)
      ensures j == match NextUnit(data, i) case None => -1 case Some(k) => k
    {
      var k := i;
      while k < |data|
        invariant i <= k || (k == i && i >= |data|)
        invariant NextUnit(data, i) == NextUnit(data, k)
        decreases |data| - k
      {
        var n := GetStartSequenceLen(k);
        if n != 0 {
          return k;
        }
        k := k + 1;
      }
      return -1;
    }

    method ParseNalUnit(j: nat) returns (r: Result<Nal>)
      modifies this
      ensures index == old(index)
      ensures NalOut(r, sps) == NalInfo(data, j, old(sps))
    {
      var first := ByteAtOrZero(data, j);
      if first >= 0x80 {
        return Err("H264 parsing sanity check failed, forbidden zero bit is set");
      }
      var unitType := first % 32;
      if unitType == 1 {
        return Ok(Nal(true, false));
      } else if unitType == 5 {
        return Ok(Nal(true, true));
      } else if unitType == 7 {
        sps := Some(Sps(ByteAt(data, j + 1), ByteAt(data, j + 2), ByteAt(data, j + 3)));
      }
      return Ok(Nal(false, false));
    }

    method Parse() returns (r: Result<Option<Frame>>)
      requires index <= |data|
      modifies this
      ensures ParseOut(r, index, sps) == ParseFrom(data, old(index), old(sps))
    {
      var startIndex := index;
      var isKey := false;
      while index < |data|
        invariant startIndex <= index <= |data|
        invariant ParseLoop(data, startIndex, index, isKey, sps) == ParseFrom(data, startIndex, old(sps))
        decreases |data| - index
      {
        var done: Option<Result<Option<Frame>>>;
        done, isKey := ParseOne(startIndex, isKey);
        if done.Some? {
          return done.value;
        }
      }
      if startIndex == index {
        return Ok(None);
      }
      return Ok(Some(Frame(data[startIndex..index], isKey)));
    }

    /** One round of the loop of `parse`: a result when the loop ends with
        this unit, else the cursor moved past it. */
    method ParseOne(startIndex: nat, isKey: bool) returns (done: Option<Result<Option<Frame>>>, key: bool)
      requires startIndex <= index < |data|
      modifies this
      ensures done.Some? ==> ParseOut(done.value, index, sps) == ParseLoop(data, startIndex, old(index), isKey, old(sps))
      ensures done.None? ==> old(index) < index <= |data| &&
                             ParseLoop(data, startIndex, index, key, sps) == ParseLoop(data, startIndex, old(index), isKey, old(sps))
    {
      key := isKey;
      var startSequenceLen := GetStartSequenceLen(index);
      if startSequenceLen == 0 {
        return Some(Err("Invalid start sequence in bit stream")), key;
      }
      var nal := ParseNalUnit(index + startSequenceLen);
      if nal.Err? {
        return Some(Err(nal.msg)), key;
      }
      var nextIndex := IndexOfNextNalUnit(index + startSequenceLen);
      if nextIndex == -1 {
        index := |data|;
      } else {
        index := nextIndex;
      }
      if nal.value.key {
        key := true;
      }
      if nal.value.slice {
        return Some(Ok(Some(Frame(data[startIndex..index], key)))), key;
      }
      done := None;
    }
  }

  /* ---------- One region's decoding context ---------- */

  /** A lower-case hex digit, and its value back. */
  function HexDigit(d: nat): (c: char)
    requires d < 16
    ensures HexValue(c) == d
  {
    if d < 10 then ('0' as int + d) as char else ('a' as int + d - 10) as char
  }

  function HexValue(c: char): nat
  {
    if '0' <= c <= '9' then c as nat - '0' as nat
    else if 'a' <= c <= 'f' then c as nat - 'a' as nat + 10
    else 0
  }

  /** `toString(16).padStart(2, '0')` of a byte. */
  function Hex2(b: byte): (s: string)
    ensures |s| == 2 && 16 * HexValue(s[0]) + HexValue(s[1]) == b as int
  {
    var hi, lo := HexDigit(b as nat / 16), HexDigit(b as nat % 16);
    [hi, lo]
  }

  /** The codec string of `_configureDecoder`; a field left `undefined` by
      a truncated SPS makes `toString` raise. */
  function CodecString(s: Sps): (r: Result<string>)
    ensures r.Ok? <==> s.profileIdc.Some? && s.constraintSet.Some? && s.levelIdc.Some?
    ensures r.Ok? ==> |r.value| == 11 && r.value[..5] == "avc1."
  {
    if s.profileIdc.None? || s.constraintSet.None? || s.levelIdc.None? then Err("TypeError")
    else Ok("avc1." + Hex2(s.profileIdc.value) + Hex2(s.constraintSet.value) + Hex2(s.levelIdc.value))
  }

  /** The codec string names the profile, constraint set and level in
      that order, two hex digits each. */
  lemma {:induction false} CodecStringDigits(s: Sps)
    requires CodecString(s).Ok?
    ensures var c := CodecString(s).value;
            16 * HexValue(c[5]) + HexValue(c[6]) == s.profileIdc.value as int &&
            16 * HexValue(c[7]) + HexValue(c[8]) == s.constraintSet.value as int &&
            16 * HexValue(c[9]) + HexValue(c[10]) == s.levelIdc.value as int
  {
    var c := CodecString(s).value;
    var p, q, l := Hex2(s.profileIdc.value), Hex2(s.constraintSet.value), Hex2(s.levelIdc.value);
    assert c == "avc1." + p + q + l;
    assert c[5] == p[0] && c[6] == p[1] && c[7] == q[0] && c[8] == q[1] && c[9] == l[0] && c[10] == l[1];
  }

  /** The browser decoder of a context: none yet, created but not
      configured, configured, or closed after a failure. */
  datatype DecoderState = NoDecoder | Unconfigured | Configured(codec: string, codedWidth: nat, codedHeight: nat) | Closed

  /** A frame handed to the decoder and not yet returned by it. */
  datatype Pending = Pending(timestamp: int, ready: bool, keep: bool, frame: Option<nat>)

  /** An `EncodedVideoChunk` given to the decoder. */
  datatype Chunk = Chunk(timestamp: int, key: bool, bytes: seq<byte>)

  /** The fields of an `H264Context`, and the chunks its decoder was given. */
  datatype ContextState = ContextState(lastUsed: nat, width: nat, height: nat, sps: Option<Sps>,
                                       decoder: DecoderState, pending: seq<Pending>, chunks: seq<Chunk>)

  function NewContext(width: nat, height: nat): ContextState
  {
    ContextState(0, width, height, None, NoDecoder, [], [])
  }

  datatype DecodeOut = DecodeOut(state: ContextState, result: Result<Option<Pending>>)

  /** `_configureDecoder` for a context whose SPS is known: a new decoder
      unless one is open, then configured with the codec string. */
  function Configure(st: ContextState): (r: Result<ContextState>)
    requires st.sps.Some?
  {
    match CodecString(st.sps.value)
    case Err(msg) => Err(msg)
    case Ok(codec) => Ok(st.(decoder := Configured(codec, st.width, st.height)))
  }

  /** The end of `decode`: the last frame prepared, if any, is kept. */
  function Finished(st: ContextState, prepared: bool): DecodeOut
  {
    if prepared && |st.pending| > 0 then
      var last := st.pending[|st.pending| - 1].(keep := true);
      DecodeOut(st.(pending := st.pending[|st.pending| - 1 := last]), Ok(Some(last)))
    else DecodeOut(st, Ok(None))
  }

  /** What becomes of one parsed frame in `decode`. */
  datatype Offered = Skipped(st: ContextState) | Sent(st: ContextState) | Failed(st: ContextState, msg: string)

  /** The body of the loop of `decode` for frame `f`, once the parser's
      SPS has been copied: an unconfigured decoder skips the frame unless
      it is a key frame and the SPS is known, and is configured first;
      otherwise a pending frame is queued and the chunk is given to the
      decoder. */
  function Offer(st: ContextState, f: Frame, timestamp: int): (r: Offered)
    ensures r.st.lastUsed == st.lastUsed && r.st.width == st.width && r.st.height == st.height
    ensures r.Skipped? ==> r.st == st
    ensures r.Sent? ==> r.st.pending == st.pending + [Pending(timestamp, false, false, None)] &&
                        r.st.chunks == st.chunks + [Chunk(timestamp, f.key, f.bytes)] && r.st.decoder.Configured? &&
                        (st.sps.Some? ==> r.st.sps.Some?)
    ensures r.Sent? && !st.decoder.Configured? ==> f.key && st.sps.Some?
  {
    if !st.decoder.Configured? && (!f.key || st.sps.None?) then Skipped(st)
    else
      var c := if st.decoder.Configured? then Ok(st) else Configure(st);
      if c.Err? then Failed(st.(decoder := Unconfigured), c.msg)
      else Sent(c.value.(pending := c.value.pending + [Pending(timestamp, false, false, None)],
                         chunks := c.value.chunks + [Chunk(timestamp, f.key, f.bytes)]))
  }

  /** Where one round of the loop of `decode` leaves it: stopped with a
      result, or going on with the parser at `index`. */
  datatype Round = Stop(out: DecodeOut) | Go(st: ContextState, index: nat, sps: Option<Sps>, prepared: bool)

  /** One round of the `while (true)` loop of `decode`: parse a frame,
      copy the parser's SPS, offer the frame. `prepared` says whether a
      frame has been queued so far. */
  function DecodeRound(st: ContextState, data: seq<byte>, index: nat, psps: Option<Sps>, timestamp: int, prepared: bool): (r: Round)
    requires index <= |data|
    ensures r.Go? ==> index < r.index <= |data|
  {
    var p := ParseFrom(data, index, psps);
    if p.result.Err? then Stop(DecodeOut(st, Err(p.result.msg)))
    else if p.result.value.None? then Stop(Finished(st, prepared))
    else
      ParseFrames(data, index, index, false, psps);
      var st1 := if p.sps.Some? then st.(sps := p.sps) else st;
      match Offer(st1, p.result.value.value, timestamp)
      case Skipped(st2) => Go(st2, p.index, p.sps, prepared)
      case Sent(st2) => Go(st2, p.index, p.sps, true)
      case Failed(st2, msg) => Stop(DecodeOut(st2, Err(msg)))
  }

  /** The `while (true)` loop of `decode` with the parser at `index`: a
      round, then the loop again from where the round leaves the parser. */
  function DecodeLoop(st: ContextState, data: seq<byte>, index: nat, psps: Option<Sps>, timestamp: int, prepared: bool): (r: DecodeOut)
    requires index <= |data|
    decreases |data| - index, 0
  {
    match DecodeRound(st, data, index, psps, timestamp, prepared)
    case Stop(out) => out
    case Go(st2, next, sps, prepared2) => DecodeFrom(st2, data, next, sps, timestamp, prepared2)
  }

  /** The loop of `decode` entered with the parser at `index`. It stands
      apart from `DecodeLoop`, which it calls, so that the verifier opens
      the loop one round at a time. */
  function DecodeFrom(st: ContextState, data: seq<byte>, index: nat, psps: Option<Sps>, timestamp: int, prepared: bool): (r: DecodeOut)
    requires index <= |data|
    decreases |data| - index, 1
  {
    DecodeLoop(st, data, index, psps, timestamp, prepared)
  }

  /** `decode(payload)` at the given timestamp. */
  function Decoded(st: ContextState, payload: seq<byte>, timestamp: int): DecodeOut
  {
    DecodeFrom(st, payload, 0, None, timestamp, false)
  }

  /** `_handleFrame`: the decoder's output goes to the oldest pending
      frame, which must exist and carry the output's timestamp. The frame
      leaves the queue even when the timestamp does not match. */
  function FrameOut(st: ContextState, timestamp: int, frame: nat): (r: (ContextState, Result<Pending>))
    ensures st.pending == [] ==> r == (st, Err("Pending frame queue empty when receiving frame from decoder"))
    ensures st.pending != [] ==> r.0 == st.(pending := st.pending[1..])
    ensures st.pending != [] ==> (r.1.Ok? <==> st.pending[0].timestamp == timestamp)
    ensures r.1.Ok? ==> r.1.value == st.pending[0].(frame := Some(frame), ready := true)
  {
    if st.pending == [] then (st, Err("Pending frame queue empty when receiving frame from decoder"))
    else
      var p := st.pending[0];
      if p.timestamp != timestamp then (st.(pending := st.pending[1..]), Err("Video frame timestamp mismatch"))
      else (st.(pending := st.pending[1..]), Ok(p.(frame := Some(frame), ready := true)))
  }


  /** `n` frames just prepared: not ready, not kept, no output yet. */
  function Queued(n: nat, timestamp: int): (r: seq<Pending>)
    ensures |r| == n
  {
    if n == 0 then [] else Queued(n - 1, timestamp) + [Pending(timestamp, false, false, None)]
  }

  /** A round leaves a context's size and age alone, and queues a pending
      frame with every chunk it gives the decoder. */
  lemma {:induction false} RoundKeeps(st: ContextState, data: seq<byte>, index: nat, psps: Option<Sps>, timestamp: int, prepared: bool)
    requires index <= |data|
    ensures var r := DecodeRound(st, data, index, psps, timestamp, prepared);
            var st2 := if r.Go? then r.st else r.out.state;
            st2.lastUsed == st.lastUsed && st2.width == st.width && st2.height == st.height &&
            |st2.chunks| - |st2.pending| == |st.chunks| - |st.pending| && st.chunks <= st2.chunks
  {
    var p := ParseFrom(data, index, psps);
    if p.result.Ok? && p.result.value.None? {
      var st2 := Finished(st, prepared).state;
      assert st2.chunks == st.chunks && |st2.pending| == |st.pending|;
    }
  }

  /** A context's size and age are not touched by `decode`, and every
      chunk given to the decoder has its pending frame. */
  lemma {:induction false} DecodeLoopKeeps(st: ContextState, data: seq<byte>, index: nat, psps: Option<Sps>, timestamp: int, prepared: bool)
    requires index <= |data|
    ensures var r := DecodeLoop(st, data, index, psps, timestamp, prepared);
            r.state.lastUsed == st.lastUsed && r.state.width == st.width && r.state.height == st.height &&
            |r.state.chunks| - |r.state.pending| == |st.chunks| - |st.pending| && st.chunks <= r.state.chunks
    decreases |data| - index
  {
    RoundKeeps(st, data, index, psps, timestamp, prepared);
    match DecodeRound(st, data, index, psps, timestamp, prepared)
    case Stop(_) =>
    case Go(st2, next, sps, prepared2) =>
      assert DecodeFrom(st2, data, next, sps, timestamp, prepared2) == DecodeLoop(st2, data, next, sps, timestamp, prepared2);
      DecodeLoopKeeps(st2, data, next, sps, timestamp, prepared2);
  }

  /** A result that returns a frame: the queue grew past `base` by frames
      of `timestamp`, the last of them kept and returned. */
  predicate KeptLast(r: DecodeOut, base: seq<Pending>, timestamp: int)
  {
    r.result.Ok? && r.result.value.Some? ==>
      var q := r.state.pending;
      |q| > |base| && q == base + Queued(|q| - 1 - |base|, timestamp) + [Pending(timestamp, false, true, None)] &&
      r.result.value.value == q[|q| - 1]
  }

  /** The queue after `n` frames of this call were prepared. */
  predicate QueuedSince(r: DecodeOut, base: seq<Pending>, n: nat, timestamp: int)
  {
    (r.result == Ok(None) ==> r.state.pending == base && n == 0) && KeptLast(r, base, timestamp)
  }

  /** A round queues at most one frame, at the end, with the call's
      timestamp. */
  lemma {:induction false} RoundQueue(st: ContextState, data: seq<byte>, index: nat, psps: Option<Sps>, timestamp: int,
                   base: seq<Pending>, n: nat)
    requires index <= |data| && st.pending == base + Queued(n, timestamp)
    ensures var r := DecodeRound(st, data, index, psps, timestamp, n > 0);
            (r.Stop? ==> QueuedSince(r.out, base, n, timestamp)) &&
            (r.Go? ==> (r.st.pending == base + Queued(n, timestamp) && r.prepared == (n > 0)) ||
                       (r.st.pending == base + Queued(n + 1, timestamp) && r.prepared))
  {
    var p := ParseFrom(data, index, psps);
    if p.result.Ok? && p.result.value.None? {
      FinishedQueue(st, base, n, timestamp);
    }
  }

  /** Every frame `decode` prepares goes to the end of the queue with the
      call's timestamp; only the last of them is kept, and it is the one
      returned. Null means none was prepared. */
  lemma {:induction false} DecodeLoopQueue(st: ContextState, data: seq<byte>, index: nat, psps: Option<Sps>, timestamp: int,
                                           base: seq<Pending>, n: nat)
    requires index <= |data| && st.pending == base + Queued(n, timestamp)
    ensures QueuedSince(DecodeLoop(st, data, index, psps, timestamp, n > 0), base, n, timestamp)
    decreases |data| - index
  {
    RoundQueue(st, data, index, psps, timestamp, base, n);
    match DecodeRound(st, data, index, psps, timestamp, n > 0)
    case Stop(_) =>
    case Go(st2, next, sps, prepared2) =>
      assert DecodeFrom(st2, data, next, sps, timestamp, prepared2) == DecodeLoop(st2, data, next, sps, timestamp, prepared2);
      if st2.pending == base + Queued(n, timestamp) && prepared2 == (n > 0) {
        DecodeLoopQueue(st2, data, next, sps, timestamp, base, n);
      } else {
        DecodeLoopQueue(st2, data, next, sps, timestamp, base, n + 1);
      }
  }

  lemma {:induction false} FinishedQueue(st: ContextState, base: seq<Pending>, n: nat, timestamp: int)
    requires st.pending == base + Queued(n, timestamp)
    ensures QueuedSince(Finished(st, n > 0), base, n, timestamp)
  {
    if n > 0 {
      var q := st.pending;
      assert q[..|q| - 1] == base + Queued(n - 1, timestamp);
      assert Finished(st, true).state.pending == base + Queued(n - 1, timestamp) + [Pending(timestamp, false, true, None)];
    } else {
      assert st.pending == base;
    }
  }

  /** A round on an unconfigured decoder either gives it nothing and leaves
      it unconfigured, or gives it a key frame first. */
  lemma {:induction false} RoundGated(st: ContextState, data: seq<byte>, index: nat, psps: Option<Sps>, timestamp: int, prepared: bool)
    requires index <= |data| && !st.decoder.Configured?
    ensures var r := DecodeRound(st, data, index, psps, timestamp, prepared);
            (r.Stop? ==> r.out.state.chunks == st.chunks) &&
            (r.Go? ==> (r.st.chunks == st.chunks && !r.st.decoder.Configured?) ||
                       (|r.st.chunks| > |st.chunks| && r.st.chunks[|st.chunks|].key))
  {
  }

  /** A decoder that is not configured is given nothing until a key frame
      arrives with the SPS known: the first chunk given to it is a key
      frame. */
  lemma {:induction false} DecodeLoopGated(st: ContextState, data: seq<byte>, index: nat, psps: Option<Sps>, timestamp: int, prepared: bool)
    requires index <= |data| && !st.decoder.Configured?
    ensures var r := DecodeLoop(st, data, index, psps, timestamp, prepared);
            |r.state.chunks| > |st.chunks| ==> r.state.chunks[|st.chunks|].key
    decreases |data| - index
  {
    RoundGated(st, data, index, psps, timestamp, prepared);
    match DecodeRound(st, data, index, psps, timestamp, prepared)
    case Stop(_) =>
    case Go(st2, next, sps, prepared2) =>
      assert DecodeFrom(st2, data, next, sps, timestamp, prepared2) == DecodeLoop(st2, data, next, sps, timestamp, prepared2);
      if st2.chunks == st.chunks && !st2.decoder.Configured? {
        DecodeLoopGated(st2, data, next, sps, timestamp, prepared2);
      } else {
        DecodeLoopKeeps(st2, data, next, sps, timestamp, prepared2);
      }
  }

  /** `decode` as a whole: the queue, the kept frame and the gating. */
  lemma {:induction false} DecodedFrames(st: ContextState, payload: seq<byte>, timestamp: int)
    ensures var r := Decoded(st, payload, timestamp);
            r.state.lastUsed == st.lastUsed && r.state.width == st.width && r.state.height == st.height &&
            |r.state.chunks| - |st.chunks| == |r.state.pending| - |st.pending| &&
            (r.result == Ok(None) ==> r.state.pending == st.pending) &&
            (r.result.Ok? && r.result.value.Some? ==>
               var q := r.state.pending;
               |q| > |st.pending| && q == st.pending + Queued(|q| - 1 - |st.pending|, timestamp) + [Pending(timestamp, false, true, None)] &&
               r.result.value.value == q[|q| - 1]) &&
            (!st.decoder.Configured? && |r.state.chunks| > |st.chunks| ==> r.state.chunks[|st.chunks|].key)
  {
    assert st.pending == st.pending + Queued(0, timestamp);
    assert Decoded(st, payload, timestamp) == DecodeLoop(st, payload, 0, None, timestamp, false);
    DecodeLoopKeeps(st, payload, 0, None, timestamp, false);
    DecodeLoopQueue(st, payload, 0, None, timestamp, st.pending, 0);
    if !st.decoder.Configured? {
      DecodeLoopGated(st, payload, 0, None, timestamp, false);
    }
  }

  class H264Context {
    var lastUsed: nat
    var width: nat
    var height: nat
    /** `_profileIdc`, `_constraintSet` and `_levelIdc`; `None` for null. */
    var sps: Option<Sps>
    var decoder: DecoderState
    var pendingFrames: seq<Pending>
    /** The chunks given to the browser decoder, in order. */
    var chunks: seq<Chunk>

    function State(): ContextState
      reads this
    {
      ContextState(lastUsed, width, height, sps, decoder, pendingFrames, chunks)
    }

    constructor(width: nat, height: nat)
      ensures State() == NewContext(width, height)
    {
      lastUsed := 0;
      this.width := width;
      this.height := height;
      sps := None;
      decoder := NoDecoder;
      pendingFrames := [];
      chunks := [];
    }

    /** `_handleFrame`, the decoder's `output` callback. */
    method HandleFrame(timestamp: int, frame: nat) returns (r: Result<Pending>)
      modifies this
      ensures (State(), r) == FrameOut(old(State()), timestamp, frame)
    {
      if pendingFrames == [] {
        return Err("Pending frame queue empty when receiving frame from decoder");
      }
      var pending := pendingFrames[0];
      pendingFrames := pendingFrames[1..];
      if pending.timestamp != timestamp {
        return Err("Video frame timestamp mismatch");
      }
      r := Ok(pending.(frame := Some(frame), ready := true));
    }

    method ConfigureDecoder() returns (r: Result<bool>)
      requires sps.Some? && !decoder.Configured?
      modifies this
      ensures r.Ok? ==> Configure(old(State())) == Ok(State())
      ensures r.Err? ==> Configure(old(State())) == Err(r.msg) && State() == old(State()).(decoder := Unconfigured)
    {
      if decoder == NoDecoder || decoder == Closed {
        decoder := Unconfigured;
      }
      var codec := CodecString(sps.value);
      if codec.Err? {
        return Err(codec.msg);
      }
      decoder := Configured(codec.value, width, height);
      r := Ok(true);
    }

    method PreparePendingFrame(timestamp: int) returns (pending: Pending)
      modifies this
      ensures pending == Pending(timestamp, false, false, None)
      ensures State() == old(State()).(pending := old(pendingFrames) + [pending])
    {
      pending := Pending(timestamp, false, false, None);
      pendingFrames := pendingFrames + [pending];
    }

    /** The body of the loop of `decode` after the SPS copy: the pending
        frame queued, if any. */
    method OfferFrame(frame: Frame, timestamp: int) returns (r: Result<Option<Pending>>)
      modifies this
      ensures match Offer(old(State()), frame, timestamp)
              case Skipped(st) => State() == st && r == Ok(None)
              case Sent(st) => State() == st && r == Ok(Some(pendingFrames[|pendingFrames| - 1]))
              case Failed(st, msg) => State() == st && r == Err(msg)
    {
      if !decoder.Configured? {
        if !frame.key {
          return Ok(None);
        }
        if sps.None? {
          return Ok(None);
        }
        var c := ConfigureDecoder();
        if c.Err? {
          return Err(c.msg);
        }
      }
      var pending := PreparePendingFrame(timestamp);
      chunks := chunks + [Chunk(timestamp, frame.key, frame.bytes)];
      r := Ok(Some(pending));
    }

    /** One round of the loop of `decode`: `stop` is the value `decode`
        returns with, `Ok(None)` for the `break`; `sent` is the frame
        queued, if any. */
    method DecodeStep(parser: H264Parser, timestamp: int, prepared: bool) returns (stop: Option<Result<Option<Pending>>>, sent: Option<Pending>)
      requires parser.index <= |parser.data|
      modifies this, parser
      ensures parser.index <= |parser.data|
      ensures sent.Some? ==> |pendingFrames| > 0 && sent.value == pendingFrames[|pendingFrames| - 1]
      ensures stop.None? && sent.None? ==> pendingFrames == old(pendingFrames)
      ensures match DecodeRound(old(State()), parser.data, old(parser.index), old(parser.sps), timestamp, prepared)
              case Stop(out) => stop.Some? && if stop.value.Err? then out == DecodeOut(State(), stop.value)
                                else stop.value == Ok(None) && State() == old(State()) && out == Finished(State(), prepared)
              case Go(st2, next, sps, prepared2) => stop.None? && State() == st2 && parser.index == next &&
                                                    parser.sps == sps && prepared2 == (prepared || sent.Some?)
    {
      ghost var before, beforeSps := parser.index, parser.sps;
      var encodedFrame := parser.Parse();
      if encodedFrame.Err? {
        return Some(Err(encodedFrame.msg)), None;
      }
      if encodedFrame.value.None? {
        return Some(Ok(None)), None;
      }
      ParseFrames(parser.data, before, before, false, beforeSps);
      var frame := encodedFrame.value.value;
      if parser.sps.Some? {
        sps := parser.sps;
      }
      var offered := OfferFrame(frame, timestamp);
      if offered.Err? {
        return Some(Err(offered.msg)), None;
      }
      stop, sent := None, offered.value;
    }

    method Decode(payload: seq<byte>, timestamp: int) returns (r: Result<Option<Pending>>)
      modifies this
      ensures DecodeOut(State(), r) == Decoded(old(State()), payload, timestamp)
    {
      var parser := new H264Parser(payload);
      var result: Option<Pending> := None;
      while true
        invariant parser.data == payload && parser.index <= |payload|
        invariant result.Some? ==> |pendingFrames| > 0 && result.value == pendingFrames[|pendingFrames| - 1]
        invariant DecodeLoop(State(), payload, parser.index, parser.sps, timestamp, result.Some?) ==
                  Decoded(old(State()), payload, timestamp)
        decreases |payload| - parser.index
      {
        var stop, sent := DecodeStep(parser, timestamp, result.Some?);
        if stop.Some? {
          if stop.value.Err? {
            return stop.value;
          }
          break;
        }
        if sent.Some? {
          result := sent;
        }
      }
      if result.Some? {
        var last := result.value.(keep := true);
        pendingFrames := pendingFrames[..|pendingFrames| - 1] + [last];
        result := Some(last);
      }
      r := Ok(result);
    }
  }

  /* ---------- The registry of contexts ---------- */

  /** `Number.MAX_VALUE`, the starting point of the search for the oldest
      context: (2^53 - 1) * 2^971. */
  const NumberMaxValue: nat := (Pow2(53) - 1) * Pow2(971)

  /** At most this many contexts are kept. */
  const MaxContexts: nat := 64

  /** One property of `_contexts`: its key and its context. */
  datatype Entry = Entry(key: string, ctx: ContextState)

  /** The keys in the object's own iteration order, which for keys that
      are not array indices is insertion order. */
  function Keys(es: seq<Entry>): (ks: seq<string>)
    ensures |ks| == |es|
  {
    seq(|es|, i requires 0 <= i < |es| => es[i].key)
  }

  predicate Distinct<T(==)>(ks: seq<T>)
  {
    forall i, j :: 0 <= i < j < |ks| ==> ks[i] != ks[j]
  }

  /** The position of `key` among the keys, -1 when absent. */
  function Find(ks: seq<string>, key: string): (r: int)
    ensures -1 <= r < |ks|
    ensures r >= 0 ==> ks[r] == key
    ensures r < 0 <==> key !in ks
  {
    if ks == [] then -1
    else if ks[0] == key then 0
    else var r := Find(ks[1..], key); if r < 0 then -1 else r + 1
  }

  /** `_contextId`: the four numbers joined by commas. */
  function ContextId(x: nat, y: nat, width: nat, height: nat): string
  {
    Strings.Join([Strings.Decimal(x), Strings.Decimal(y), Strings.Decimal(width), Strings.Decimal(height)], ',')
  }

  /** Different rectangles have different keys. */
  lemma {:induction false} ContextIdInjective(x: nat, y: nat, width: nat, height: nat, x2: nat, y2: nat, width2: nat, height2: nat)
    requires ContextId(x, y, width, height) == ContextId(x2, y2, width2, height2)
    ensures x == x2 && y == y2 && width == width2 && height == height2
  {
    var ps := [Strings.Decimal(x), Strings.Decimal(y), Strings.Decimal(width), Strings.Decimal(height)];
    var qs := [Strings.Decimal(x2), Strings.Decimal(y2), Strings.Decimal(width2), Strings.Decimal(height2)];
    Strings.SplitJoin(ps, ',');
    Strings.SplitJoin(qs, ',');
    assert ps == qs;
    Strings.DecimalInjective(x, x2);
    Strings.DecimalInjective(y, y2);
    Strings.DecimalInjective(width, width2);
    Strings.DecimalInjective(height, height2);
  }

  /** `delete this._contexts[key]`. */
  function Remove(es: seq<Entry>, key: string): (r: seq<Entry>)
  {
    var i := Find(Keys(es), key);
    if i < 0 then es else es[..i] + es[i + 1..]
  }

  /** `this._contexts[key] = ctx`: a new key goes last, an existing one
      keeps its place. */
  function Put(es: seq<Entry>, key: string, ctx: ContextState): (r: seq<Entry>)
    ensures Keys(r) == if key in Keys(es) then Keys(es) else Keys(es) + [key]
  {
    var i := Find(Keys(es), key);
    assert Keys(es + [Entry(key, ctx)]) == Keys(es) + [key];
    if i < 0 then es + [Entry(key, ctx)] else es[i := Entry(key, ctx)]
  }

  /** The loop of `_findOldestContextId` from property `k`, where `best`
      is the position of the oldest context so far and `tick` its age. */
  function OldestFrom(es: seq<Entry>, k: nat, tick: nat, best: Option<nat>): (r: Option<nat>)
    requires k <= |es| && (best.Some? ==> best.value < k)
    ensures r.Some? ==> r.value < |es|
    decreases |es| - k
  {
    if k == |es| then best
    else if es[k].ctx.lastUsed < tick then OldestFrom(es, k + 1, es[k].ctx.lastUsed, Some(k))
    else OldestFrom(es, k + 1, tick, best)
  }

  /** `_findOldestContextId`, as a position. */
  function Oldest(es: seq<Entry>): (r: Option<nat>)
    ensures r.Some? ==> r.value < |es|
  {
    OldestFrom(es, 0, NumberMaxValue, None)
  }

  lemma {:induction false} OldestFromFirstMinimum(es: seq<Entry>, k: nat, tick: nat, best: Option<nat>)
    requires k <= |es| && (best.Some? ==> best.value < k)
    requires forall j :: 0 <= j < k ==> es[j].ctx.lastUsed >= tick
    requires best.Some? ==> es[best.value].ctx.lastUsed == tick &&
                            forall j :: 0 <= j < best.value ==> es[j].ctx.lastUsed > tick
    ensures var r := OldestFrom(es, k, tick, best);
            (r.Some? ==> (forall j :: 0 <= j < |es| ==> es[j].ctx.lastUsed >= es[r.value].ctx.lastUsed) &&
                         (forall j :: 0 <= j < r.value ==> es[j].ctx.lastUsed > es[r.value].ctx.lastUsed) &&
                         es[r.value].ctx.lastUsed <= tick) &&
            (r.None? ==> best.None? && forall j :: 0 <= j < |es| ==> es[j].ctx.lastUsed >= tick)
    decreases |es| - k
  {
    if k < |es| {
      if es[k].ctx.lastUsed < tick {
        OldestFromFirstMinimum(es, k + 1, es[k].ctx.lastUsed, Some(k));
      } else {
        OldestFromFirstMinimum(es, k + 1, tick, best);
      }
    }
  }

  /** The oldest context is the first of those least recently used; there
      is none only when every age reaches `Number.MAX_VALUE`. */
  lemma {:induction false} OldestFirstMinimum(es: seq<Entry>)
    ensures var r := Oldest(es);
            (r.Some? ==> es[r.value].ctx.lastUsed < NumberMaxValue &&
                         (forall j :: 0 <= j < |es| ==> es[j].ctx.lastUsed >= es[r.value].ctx.lastUsed) &&
                         (forall j :: 0 <= j < r.value ==> es[j].ctx.lastUsed > es[r.value].ctx.lastUsed)) &&
            (r.None? <==> forall j :: 0 <= j < |es| ==> es[j].ctx.lastUsed >= NumberMaxValue)
  {
    OldestFromFirstMinimum(es, 0, NumberMaxValue, None);
    var r := Oldest(es);
    if r.Some? {
      var i := r.value;
      if es[i].ctx.lastUsed >= NumberMaxValue {
        OldestFromNever(es, 0, NumberMaxValue);
      }
    }
  }

  /** The search never picks a context no younger than where it started. */
  lemma {:induction false} OldestFromNever(es: seq<Entry>, k: nat, tick: nat)
    requires k <= |es|
    requires forall j :: k <= j < |es| ==> es[j].ctx.lastUsed >= tick
    ensures OldestFrom(es, k, tick, None) == None
    decreases |es| - k
  {
    if k < |es| {
      OldestFromNever(es, k + 1, tick);
    }
  }

  /** The first half of `_createContext`: with 64 contexts or more the
      oldest is deleted. */
  function Evicted(es: seq<Entry>): seq<Entry>
  {
    if |es| >= MaxContexts then
      match Oldest(es)
      case None => es
      case Some(i) => Remove(es, es[i].key)
    else es
  }

  /** `_createContext`: the eviction, then the new context stored under
      `key`. */
  function Created(es: seq<Entry>, key: string, width: nat, height: nat): seq<Entry>
  {
    Put(Evicted(es), key, NewContext(width, height))
  }

  /** `_getContext`: the context stored under `key`, made if missing. */
  function Got(es: seq<Entry>, key: string, width: nat, height: nat): (r: seq<Entry>)
    ensures key in Keys(r)
  {
    if Find(Keys(es), key) >= 0 then es else Created(es, key, width, height)
  }

  /** The fields of an `H264Decoder`. */
  datatype Registry = Registry(tick: nat, entries: seq<Entry>)

  /** The reset flags of the rectangle header: bit 1 drops every context,
      else bit 0 drops this rectangle's. */
  function Reset(es: seq<Entry>, flags: nat, key: string): seq<Entry>
  {
    if (flags / 2) % 2 == 1 then [] else if flags % 2 == 1 then Remove(es, key) else es
  }

  /** The resets and `_getContext`: the properties, and the position of
      the rectangle's context among them. */
  function Stamp(reg: Registry, flags: nat, key: string, width: nat, height: nat): (r: (seq<Entry>, nat))
    ensures r.1 < |r.0| && r.0[r.1].key == key
  {
    var es := Got(Reset(reg.entries, flags, key), key, width, height);
    (es, Find(Keys(es), key))
  }

  /** The part of `decodeRect` after the header: the resets, the context
      of the rectangle found or made and stamped with the tick, and the
      payload decoded unless it is empty. */
  function Apply(reg: Registry, flags: nat, key: string, width: nat, height: nat, payload: seq<byte>, now: int)
    : (r: (Registry, Result<Option<Pending>>))
    ensures r.0.tick == reg.tick + 1
  {
    var s := Stamped(reg, flags, key, width, height);
    if |payload| == 0 then (s.0, Ok(None)) else DecodeIn(s.0, s.1, payload, now)
  }

  /** The registry once the resets are done and the context of `key` is
      found or made and stamped with the tick, and that context's position. */
  function Stamped(reg: Registry, flags: nat, key: string, width: nat, height: nat): (r: (Registry, nat))
    ensures r.0.tick == reg.tick + 1 && r.1 < |r.0.entries| && r.0.entries[r.1].key == key
  {
    var t := Stamp(reg, flags, key, width, height);
    (Registry(reg.tick + 1, t.0[t.1 := Entry(key, t.0[t.1].ctx.(lastUsed := reg.tick))]), t.1)
  }

  /** The payload decoded by the context at position `i`. */
  function DecodeIn(reg: Registry, i: nat, payload: seq<byte>, now: int): (r: (Registry, Result<Option<Pending>>))
    requires i < |reg.entries|
    ensures r.0.tick == reg.tick && |r.0.entries| == |reg.entries|
  {
    var d := Decoded(reg.entries[i].ctx, payload, now);
    (Registry(reg.tick, reg.entries[i := Entry(reg.entries[i].key, d.state)]), d.result)
  }

  /** `decodeRect` from byte `at`: the 8-byte header (length and flags),
      then the payload; `now` is the decode timestamp. */
  function RectStep(reg: Registry, data: seq<byte>, at: nat, log: seq<Call>,
                    x: nat, y: nat, width: nat, height: nat, now: int): (r: Decoder.Run<Registry>)
    requires at <= |data|
  {
    if |data| - at < 8 then Decoder.Run(reg, at, log, Ok(false))
    else
      var length := U32(data[at..at + 4]);
      var flags := U32(data[at + 4..at + 8]);
      if |data| - (at + 8) < length then Decoder.Run(reg, at, log, Ok(false))
      else
        var a := Apply(reg, flags, ContextId(x, y, width, height), width, height, data[at + 8..at + 8 + length], now);
        RectDone(a, at + 8 + length, log, x, y, width, height)
  }

  /** `decodeRect` without its whole header or payload. */
  lemma {:induction false} RectStepWaits(reg: Registry, data: seq<byte>, at: nat, log: seq<Call>,
                      x: nat, y: nat, width: nat, height: nat, now: int)
    requires at <= |data| && (at + 8 > |data| || at + 8 + U32(data[at..at + 4]) > |data|)
    ensures RectStep(reg, data, at, log, x, y, width, height, now) == Decoder.Run(reg, at, log, Ok(false))
  {
  }

  /** `decodeRect` with its header and payload there. */
  lemma {:induction false} RectStepDone(reg: Registry, data: seq<byte>, at: nat, log: seq<Call>,
                     x: nat, y: nat, width: nat, height: nat, now: int, length: nat, flags: nat)
    requires at + 8 <= |data| && length == U32(data[at..at + 4]) && flags == U32(data[at + 4..at + 8])
    requires at + 8 + length <= |data|
    ensures RectStep(reg, data, at, log, x, y, width, height, now) ==
            RectDone(Apply(reg, flags, ContextId(x, y, width, height), width, height,
                           data[at + 8..at + 8 + length], now), at + 8 + length, log, x, y, width, height)
  {
  }

  /** The end of `decodeRect`: the frame `decode` returned, if any, is
      drawn; an exception from it passes through. */
  function RectDone(a: (Registry, Result<Option<Pending>>), at: nat, log: seq<Call>,
                    x: nat, y: nat, width: nat, height: nat): Decoder.Run<Registry>
  {
    match a.1
    case Err(msg) => Decoder.Run(a.0, at, log, Err(msg))
    case Ok(None) => Decoder.Run(a.0, at, log, Ok(true))
    case Ok(Some(p)) => Decoder.Run(a.0, at, log + [Call.VideoFrame(x, y, width, height, p.timestamp)], Ok(true))
  }

  /** What the registry keeps between rectangles: at most 64 contexts,
      one per key, each last used before the current tick. */
  predicate RegistryValid(reg: Registry)
  {
    |reg.entries| <= MaxContexts && Distinct(Keys(reg.entries)) &&
    forall j :: 0 <= j < |reg.entries| ==> reg.entries[j].ctx.lastUsed < reg.tick
  }

  /** Removing position `i` keeps the other elements and nothing else. */
  lemma {:induction false} SliceOut<T>(s: seq<T>, i: nat)
    requires i < |s|
    ensures forall e :: e in s[..i] + s[i + 1..] ==> e in s
    ensures forall e :: e in s && e != s[i] ==> e in s[..i] + s[i + 1..]
  {
    var r := s[..i] + s[i + 1..];
    forall e | e in s && e != s[i]
      ensures e in r
    {
      var j :| 0 <= j < |s| && s[j] == e;
      if j < i { assert r[j] == e; } else { assert r[j - 1] == e; }
    }
  }

  lemma {:induction false} DistinctSliceOut<T>(ks: seq<T>, i: nat)
    requires i < |ks| && Distinct(ks)
    ensures Distinct(ks[..i] + ks[i + 1..]) && ks[i] !in ks[..i] + ks[i + 1..]
  {
    var r := ks[..i] + ks[i + 1..];
    forall j, k | 0 <= j < k < |r|
      ensures r[j] != r[k]
    {
      var j' := if j < i then j else j + 1;
      var k' := if k < i then k else k + 1;
      assert r[j] == ks[j'] && r[k] == ks[k'];
    }
  }

  /** Deleting a key leaves the other properties, in order, and no other. */
  lemma {:induction false} RemoveFacts(es: seq<Entry>, key: string)
    requires Distinct(Keys(es))
    ensures var r := Remove(es, key);
            |r| == (if key in Keys(es) then |es| - 1 else |es|) && Distinct(Keys(r)) && key !in Keys(r) &&
            (forall e :: e in r ==> e in es) &&
            (forall e :: e in es && e.key != key ==> e in r) &&
            (forall k :: k in Keys(r) ==> k in Keys(es))
  {
    var i := Find(Keys(es), key);
    if i >= 0 {
      assert Keys(es[..i] + es[i + 1..]) == Keys(es)[..i] + Keys(es)[i + 1..];
      DistinctSliceOut(Keys(es), i);
      SliceOut(es, i);
      SliceOut(Keys(es), i);
    }
  }

  /** When every context was used before a tick no later than
      `Number.MAX_VALUE`, a full registry loses one context. */
  lemma {:induction false} EvictedFacts(es: seq<Entry>, tick: nat)
    requires |es| <= MaxContexts && Distinct(Keys(es))
    requires tick <= NumberMaxValue && forall j :: 0 <= j < |es| ==> es[j].ctx.lastUsed < tick
    ensures var r := Evicted(es);
            |r| < MaxContexts && Distinct(Keys(r)) && (forall e :: e in r ==> e in es) &&
            (forall k :: k in Keys(r) ==> k in Keys(es))
  {
    if |es| >= MaxContexts {
      OldestFirstMinimum(es);
      assert es[0].ctx.lastUsed < NumberMaxValue;
      var i := Oldest(es).value;
      assert Keys(es)[i] == es[i].key;
      RemoveFacts(es, es[i].key);
    }
  }

  /** A new context stored under a key that is not yet there, after the
      eviction. */
  lemma {:induction false} CreatedFacts(es: seq<Entry>, key: string, width: nat, height: nat, tick: nat)
    requires |es| <= MaxContexts && Distinct(Keys(es)) && key !in Keys(es)
    requires tick <= NumberMaxValue && forall j :: 0 <= j < |es| ==> es[j].ctx.lastUsed < tick
    ensures var r := Created(es, key, width, height);
            |r| <= MaxContexts && Distinct(Keys(r)) && r[|r| - 1] == Entry(key, NewContext(width, height)) &&
            forall j :: 0 <= j < |r| - 1 ==> r[j] in es
  {
    var kept := Evicted(es);
    EvictedFacts(es, tick);
    var r := kept + [Entry(key, NewContext(width, height))];
    assert Created(es, key, width, height) == r;
    assert Keys(r) == Keys(kept) + [key];
    forall j | 0 <= j < |r| - 1
      ensures r[j] in es
    {
      assert r[j] == kept[j];
    }
  }

  /** With 64 contexts the oldest one gives way to the new one. */
  lemma {:induction false} CreatedEvicts(es: seq<Entry>, key: string, width: nat, height: nat)
    requires |es| >= MaxContexts && Distinct(Keys(es)) && key !in Keys(es) && Oldest(es).Some?
    ensures var i := Oldest(es).value;
            Keys(Created(es, key, width, height)) == Keys(es)[..i] + Keys(es)[i + 1..] + [key]
  {
    var i := Oldest(es).value;
    assert Keys(es)[i] == es[i].key;
    var i2 := Find(Keys(es), es[i].key);
    assert i2 == i;
    var kept := es[..i] + es[i + 1..];
    assert Keys(kept) == Keys(es)[..i] + Keys(es)[i + 1..];
    RemoveFacts(es, es[i].key);
  }

  /** The reset flags keep the registry valid. */
  lemma {:induction false} ResetFacts(reg: Registry, flags: nat, key: string)
    requires RegistryValid(reg)
    ensures RegistryValid(Registry(reg.tick, Reset(reg.entries, flags, key)))
    ensures forall e :: e in Reset(reg.entries, flags, key) ==> e in reg.entries
  {
    RemoveFacts(reg.entries, key);
    var es := Reset(reg.entries, flags, key);
    forall j | 0 <= j < |es|
      ensures es[j].ctx.lastUsed < reg.tick
    {
      assert es[j] in reg.entries;
    }
  }

  /** After `_getContext` the key is there once, at most 64 contexts are
      kept, and every other context is one that was there before. */
  lemma {:induction false} GotFacts(reg: Registry, key: string, width: nat, height: nat)
    requires RegistryValid(reg) && reg.tick <= NumberMaxValue
    ensures var es := Got(reg.entries, key, width, height);
            |es| <= MaxContexts && Distinct(Keys(es)) &&
            forall j :: 0 <= j < |es| && es[j].key != key ==> es[j] in reg.entries
  {
    var es := Got(reg.entries, key, width, height);
    if Find(Keys(reg.entries), key) < 0 {
      CreatedFacts(reg.entries, key, width, height, reg.tick);
    }
  }

  /** After the resets and `_getContext` every context but the
      rectangle's was used before the tick, and the keys stay distinct. */
  lemma {:induction false} StampFacts(reg: Registry, flags: nat, key: string, width: nat, height: nat)
    requires RegistryValid(reg) && reg.tick < NumberMaxValue
    ensures var t := Stamp(reg, flags, key, width, height);
            |t.0| <= MaxContexts && Distinct(Keys(t.0)) &&
            forall j :: 0 <= j < |t.0| && j != t.1 ==> t.0[j].ctx.lastUsed < reg.tick
  {
    var reg0 := Registry(reg.tick, Reset(reg.entries, flags, key));
    ResetFacts(reg, flags, key);
    GotFacts(reg0, key, width, height);
    var t := Stamp(reg, flags, key, width, height);
    var es, i := t.0, t.1;
    forall j | 0 <= j < |es| && j != i
      ensures es[j].ctx.lastUsed < reg.tick
    {
      assert Keys(es)[j] != Keys(es)[i];
      var m :| 0 <= m < |reg0.entries| && reg0.entries[m] == es[j];
    }
  }

  /** The work after the header keeps the registry valid while the tick
      stays below `Number.MAX_VALUE`. */
  lemma {:induction false} ApplyKeepsRegistry(reg: Registry, flags: nat, key: string, width: nat, height: nat, payload: seq<byte>, now: int)
    requires RegistryValid(reg) && reg.tick < NumberMaxValue
    ensures RegistryValid(Apply(reg, flags, key, width, height, payload, now).0)
  {
    StampFacts(reg, flags, key, width, height);
    var t := Stamp(reg, flags, key, width, height);
    var es, i := t.0, t.1;
    var stamped := Stamped(reg, flags, key, width, height).0;
    var ctx := stamped.entries[i].ctx;
    var st := if |payload| == 0 then ctx else Decoded(ctx, payload, now).state;
    if |payload| != 0 {
      DecodedFrames(ctx, payload, now);
    }
    var es2 := es[i := Entry(key, st)];
    KeysUpdated(es, i, Entry(key, st));
    assert Apply(reg, flags, key, width, height, payload, now).0 == Registry(reg.tick + 1, es2);
  }

  lemma {:induction false} KeysUpdated(es: seq<Entry>, i: nat, e: Entry)
    requires i < |es| && e.key == es[i].key
    ensures Keys(es[i := e]) == Keys(es)
  {
    assert forall j :: 0 <= j < |es| ==> Keys(es[i := e])[j] == Keys(es)[j];
  }

  /** `decodeRect` keeps the registry valid while the tick stays below
      `Number.MAX_VALUE`. */
  lemma {:induction false} RectKeepsRegistry(reg: Registry, data: seq<byte>, at: nat, log: seq<Call>,
                          x: nat, y: nat, width: nat, height: nat, now: int)
    requires at <= |data| && RegistryValid(reg) && reg.tick < NumberMaxValue
    ensures RegistryValid(RectStep(reg, data, at, log, x, y, width, height, now).state)
  {
    if |data| - at >= 8 && |data| - (at + 8) >= U32(data[at..at + 4]) {
      var length := U32(data[at..at + 4]);
      var flags := U32(data[at + 4..at + 8]);
      var payload := data[at + 8..at + 8 + length];
      RectStepDone(reg, data, at, log, x, y, width, height, now, length, flags);
      ApplyKeepsRegistry(reg, flags, ContextId(x, y, width, height), width, height, payload, now);
    }
  }

  /** With bit 1 of the flags the rectangle's context is the only one,
      and is new. */
  lemma {:induction false} StampResetsAll(reg: Registry, flags: nat, key: string, width: nat, height: nat)
    requires (flags / 2) % 2 == 1
    ensures Stamp(reg, flags, key, width, height) == ([Entry(key, NewContext(width, height))], 0)
  {
    var e := Entry(key, NewContext(width, height));
    assert Reset(reg.entries, flags, key) == [];
    assert Evicted([]) == [];
    assert Keys([e]) == [key];
    assert Put([], key, NewContext(width, height)) == [e];
  }

  /** With bit 0 of the flags the rectangle's context is new. */
  lemma {:induction false} StampResetsOne(reg: Registry, flags: nat, key: string, width: nat, height: nat)
    requires flags % 2 == 1 && Distinct(Keys(reg.entries))
    ensures var t := Stamp(reg, flags, key, width, height);
            t.0[t.1].ctx == NewContext(width, height)
  {
    if (flags / 2) % 2 == 1 {
      StampResetsAll(reg, flags, key, width, height);
    } else {
      RemoveFacts(reg.entries, key);
      var es0 := Remove(reg.entries, key);
      EvictedKeys(es0);
      var kept := Evicted(es0);
      assert key !in Keys(kept);
      FindAppended(Keys(kept), key);
    }
  }

  /** The eviction deletes keys and adds none. */
  lemma {:induction false} EvictedKeys(es: seq<Entry>)
    requires Distinct(Keys(es))
    ensures forall k :: k in Keys(Evicted(es)) ==> k in Keys(es)
  {
    if |es| >= MaxContexts && Oldest(es).Some? {
      RemoveFacts(es, es[Oldest(es).value].key);
    }
  }

  /** A key appended to keys without it is found last. */
  lemma {:induction false} FindAppended(ks: seq<string>, key: string)
    requires key !in ks
    ensures Find(ks + [key], key) == |ks|
  {
    if ks != [] {
      assert (ks + [key])[1..] == ks[1..] + [key];
      FindAppended(ks[1..], key);
    }
  }

  /** Without reset flags an existing context is reused as it is. */
  lemma {:induction false} StampReuses(reg: Registry, flags: nat, key: string, width: nat, height: nat)
    requires (flags / 2) % 2 == 0 && flags % 2 == 0 && key in Keys(reg.entries)
    ensures Stamp(reg, flags, key, width, height) == (reg.entries, Find(Keys(reg.entries), key))
  {
  }

  /** `decodeRect`: it waits, consuming and changing nothing, exactly when
      the header or the payload is incomplete; otherwise it consumes both,
      advances the tick, stamps the rectangle's context with the old tick,
      and draws the frame `decode` returns, which carries the timestamp;
      an empty payload draws nothing. */
  lemma {:induction false} RectOutcome(reg: Registry, data: seq<byte>, at: nat, log: seq<Call>,
                    x: nat, y: nat, width: nat, height: nat, now: int)
    requires at <= |data|
    ensures var r := RectStep(reg, data, at, log, x, y, width, height, now);
            var waits := |data| - at < 8 || |data| - (at + 8) < U32(data[at..at + 4]);
            (r.result == Ok(false) <==> waits) &&
            (waits ==> r == Decoder.Run(reg, at, log, Ok(false))) &&
            (!waits ==>
               var length := U32(data[at..at + 4]);
               var key := ContextId(x, y, width, height);
               r.at == at + 8 + length && r.state.tick == reg.tick + 1 &&
               key in Keys(r.state.entries) &&
               r.state.entries[Find(Keys(r.state.entries), key)].ctx.lastUsed == reg.tick &&
               (r.log == log || (length > 0 && r.result == Ok(true) &&
                                 r.log == log + [Call.VideoFrame(x, y, width, height, now)])) &&
               (length == 0 ==> r.log == log && r.result == Ok(true)))
  {
    if |data| - at >= 8 && |data| - (at + 8) >= U32(data[at..at + 4]) {
      var length := U32(data[at..at + 4]);
      var flags := U32(data[at + 4..at + 8]);
      var key := ContextId(x, y, width, height);
      var payload := data[at + 8..at + 8 + length];
      RectStepDone(reg, data, at, log, x, y, width, height, now, length, flags);
      ApplyStamps(reg, flags, key, width, height, payload, now);
    }
  }

  /** The work after the header: the rectangle's context is stamped with
      the tick, and a returned frame carries the timestamp. */
  lemma {:induction false} ApplyStamps(reg: Registry, flags: nat, key: string, width: nat, height: nat, payload: seq<byte>, now: int)
    ensures var a := Apply(reg, flags, key, width, height, payload, now);
            key in Keys(a.0.entries) && a.0.entries[Find(Keys(a.0.entries), key)].ctx.lastUsed == reg.tick &&
            (|payload| == 0 ==> a.1 == Ok(None)) &&
            (a.1.Ok? && a.1.value.Some? ==> a.1.value.value.timestamp == now)
  {
    var t := Stamp(reg, flags, key, width, height);
    var es, i := t.0, t.1;
    var stamped := Stamped(reg, flags, key, width, height).0;
    var ctx := stamped.entries[i].ctx;
    var st := if |payload| == 0 then ctx else Decoded(ctx, payload, now).state;
    if |payload| != 0 {
      DecodedFrames(ctx, payload, now);
    }
    KeysUpdated(es, i, Entry(key, st));
    var a := Apply(reg, flags, key, width, height, payload, now);
    assert a.0.entries == es[i := Entry(key, st)];
    assert Find(Keys(a.0.entries), key) == i;
  }

  /** The header of `decodeRect`: its length and flags, read once the
      header and the payload are both there; otherwise nothing is consumed. */
  method ReadHeader(sock: Socket) returns (ready: bool, length: nat, flags: nat)
    requires sock.Valid()
    modifies sock
    ensures sock.Valid() && sock.data == old(sock.data)
    ensures sock.sendQueue == old(sock.sendQueue) && sock.sent == old(sock.sent)
    ensures var at := old(sock.index);
            ready <==> at + 8 <= |sock.data| && at + 8 + U32(sock.data[at..at + 4]) <= |sock.data|
    ensures !ready ==> sock.index == old(sock.index)
    ensures ready ==> var at := old(sock.index);
                      sock.index == at + 8 && length == U32(sock.data[at..at + 4]) &&
                      flags == U32(sock.data[at + 4..at + 8])
  {
    ghost var at := sock.index;
    var w := sock.Wait(8, 0);
    if w != Ok(false) {
      return false, 0, 0;
    }
    length := sock.Shift32();
    assert sock.data[at..][..4] == sock.data[at..at + 4];
    flags := sock.Shift32();
    assert sock.data[at + 4..][..4] == sock.data[at + 4..at + 8];
    w := sock.Wait(length, 8);
    ready := w == Ok(false);
  }

  class H264Decoder {
    var tick: nat
    /** The keys of `_contexts` in iteration order, and their contexts. */
    var keys: seq<string>
    var contexts: seq<H264Context>

    /** One context per key, and no context under two keys. */
    ghost predicate Valid()
      reads this
    {
      |keys| == |contexts| && Distinct(keys) && Distinct(contexts)
    }

    function Entries(): (es: seq<Entry>)
      reads this, contexts
      requires |keys| == |contexts|
      ensures Keys(es) == keys
    {
      seq(|keys|, i requires 0 <= i < |keys| && |keys| == |contexts| reads this, contexts =>
            Entry(keys[i], contexts[i].State()))
    }

    function Fields(): Registry
      reads this, contexts
      requires |keys| == |contexts|
    {
      Registry(tick, Entries())
    }

    constructor()
      ensures Valid() && Fields() == Registry(0, [])
    {
      tick := 0;
      keys := [];
      contexts := [];
    }

    /** `_findOldestContextId`. */
    method FindOldestContextId() returns (r: Option<string>)
      requires Valid()
      ensures r == match Oldest(Entries()) case None => None case Some(i) => Some(keys[i])
    {
      ghost var es := Entries();
      var oldestTick: nat := NumberMaxValue;
      var oldestKey: Option<string> := None;
      ghost var best: Option<nat> := None;
      for i := 0 to |keys|
        invariant best.Some? ==> best.value < i
        invariant OldestFrom(es, i, oldestTick, best) == Oldest(es)
        invariant oldestKey == if best.Some? then Some(keys[best.value]) else None
      {
        assert es[i].ctx.lastUsed == contexts[i].lastUsed;
        if contexts[i].lastUsed < oldestTick {
          oldestTick := contexts[i].lastUsed;
          oldestKey := Some(keys[i]);
          best := Some(i);
        }
      }
      r := oldestKey;
    }

    /** The `delete` operator on `_contexts`. */
    method Delete(key: string)
      requires Valid()
      modifies this
      ensures Valid() && tick == old(tick) && Entries() == Remove(old(Entries()), key)
      ensures forall c :: c in contexts ==> c in old(contexts)
    {
      var i := Find(keys, key);
      if i >= 0 {
        ghost var es := Entries();
        DistinctSliceOut(keys, i);
        DistinctSliceOut(contexts, i);
        SliceOut(contexts, i);
        keys := keys[..i] + keys[i + 1..];
        contexts := contexts[..i] + contexts[i + 1..];
        forall j | 0 <= j < |keys|
          ensures Entries()[j] == (es[..i] + es[i + 1..])[j]
        {
          var j' := if j < i then j else j + 1;
          assert keys[j] == old(keys)[j'] && contexts[j] == old(contexts)[j'];
        }
        assert Entries() == es[..i] + es[i + 1..];
      }
    }

    /** Assigning `_contexts[key]`: a new key goes last, an existing one
        keeps its place. */
    method Store(key: string, ctx: H264Context)
      requires Valid() && ctx !in contexts
      modifies this
      ensures Valid() && tick == old(tick) && Entries() == Put(old(Entries()), key, ctx.State())
      ensures forall c :: c in contexts ==> c in old(contexts) || c == ctx
      ensures contexts[Find(keys, key)] == ctx
    {
      ghost var es := Entries();
      var i := Find(keys, key);
      if i < 0 {
        keys := keys + [key];
        contexts := contexts + [ctx];
        assert Entries() == es + [Entry(key, ctx.State())];
        FindAppended(old(keys), key);
      } else {
        keys := keys[i := key];
        contexts := contexts[i := ctx];
        assert Entries() == es[i := Entry(key, ctx.State())];
      }
    }

    /** The first half of `_createContext`: with 64 contexts or more the
        oldest is deleted. */
    method Evict()
      requires Valid()
      modifies this
      ensures Valid() && tick == old(tick) && Entries() == Evicted(old(Entries()))
      ensures forall c :: c in contexts ==> c in old(contexts)
    {
      if |keys| >= MaxContexts {
        var oldestContextId := FindOldestContextId();
        if oldestContextId.Some? {
          Delete(oldestContextId.value);
        }
      }
    }

    /** `_createContext`. */
    method CreateContext(x: nat, y: nat, width: nat, height: nat) returns (ctx: H264Context)
      requires Valid()
      modifies this
      ensures Valid() && fresh(ctx) && tick == old(tick)
      ensures Entries() == Created(old(Entries()), ContextId(x, y, width, height), width, height)
      ensures forall c :: c in contexts ==> c in old(contexts) || c == ctx
      ensures contexts[Find(keys, ContextId(x, y, width, height))] == ctx
    {
      // The context is allocated first, which the eviction does not notice.
      ctx := new H264Context(width, height);
      Evict();
      ghost var kept := Entries();
      Store(ContextId(x, y, width, height), ctx);
      assert ctx.State() == NewContext(width, height);
      assert Entries() == Put(kept, ContextId(x, y, width, height), NewContext(width, height));
    }

    /** `_getContext`. */
    method GetContext(x: nat, y: nat, width: nat, height: nat) returns (ctx: H264Context)
      requires Valid()
      modifies this
      ensures Valid() && tick == old(tick)
      ensures Entries() == Got(old(Entries()), ContextId(x, y, width, height), width, height)
      ensures forall c :: c in contexts ==> c in old(contexts) || c == ctx
      ensures ctx in old(contexts) || fresh(ctx)
      ensures contexts[Find(keys, ContextId(x, y, width, height))] == ctx
    {
      var i := Find(keys, ContextId(x, y, width, height));
      if i >= 0 {
        ctx := contexts[i];
      } else {
        ctx := CreateContext(x, y, width, height);
      }
    }

    /** `_resetContext`. */
    method ResetContext(x: nat, y: nat, width: nat, height: nat)
      requires Valid()
      modifies this
      ensures Valid() && tick == old(tick)
      ensures Entries() == Remove(old(Entries()), ContextId(x, y, width, height))
      ensures forall c :: c in contexts ==> c in old(contexts)
    {
      Delete(ContextId(x, y, width, height));
    }

    /** `_resetAllContexts`. */
    method ResetAllContexts()
      modifies this
      ensures Valid() && tick == old(tick) && Entries() == []
    {
      keys := [];
      contexts := [];
    }

    /** The reset flags of `decodeRect`. */
    method ApplyResets(flags: nat, x: nat, y: nat, width: nat, height: nat)
      requires Valid()
      modifies this
      ensures Valid() && tick == old(tick)
      ensures Entries() == Reset(old(Entries()), flags, ContextId(x, y, width, height))
      ensures forall c :: c in contexts ==> c in old(contexts)
    {
      if (flags / 2) % 2 == 1 {
        ResetAllContexts();
      } else if flags % 2 == 1 {
        ResetContext(x, y, width, height);
      }
    }

    /** `context.decode(payload)` on the context at position `i`. */
    method DecodeAt(i: nat, payload: seq<byte>, now: int) returns (frame: Result<Option<Pending>>)
      requires Valid() && i < |contexts|
      modifies contexts[i]
      ensures Valid() && keys == old(keys) && contexts == old(contexts) && tick == old(tick)
      ensures var d := DecodeIn(old(Fields()), i, payload, now);
              Fields() == d.0 && frame == d.1
    {
      ghost var es := Entries();
      var context := contexts[i];
      frame := context.Decode(payload, now);
      forall j | 0 <= j < |keys|
        ensures Entries()[j] == es[i := Entry(keys[i], context.State())][j]
      {
        if j != i {
          assert contexts[j] != context;
        }
      }
    }

    /** The resets and `_getContext` of `decodeRect`, and the tick. */
    method StampContext(flags: nat, x: nat, y: nat, width: nat, height: nat) returns (i: nat)
      requires Valid()
      modifies this, contexts
      ensures Valid() && tick == old(tick) + 1 && i < |contexts|
      ensures forall c :: c in contexts ==> c in old(contexts) || fresh(c)
      ensures var s := Stamped(old(Fields()), flags, ContextId(x, y, width, height), width, height);
              Fields() == s.0 && i == s.1
    {
      i := LocateContext(flags, x, y, width, height);
      assert contexts[i] in contexts;
      Touch(i);
    }

    /** The resets and `_getContext` of `decodeRect`: the position of the
        rectangle's context. */
    method LocateContext(flags: nat, x: nat, y: nat, width: nat, height: nat) returns (i: nat)
      requires Valid()
      modifies this
      ensures Valid() && tick == old(tick) && i < |contexts|
      ensures forall c :: c in contexts ==> c in old(contexts) || fresh(c)
      ensures var t := Stamp(old(Fields()), flags, ContextId(x, y, width, height), width, height);
              Entries() == t.0 && i == t.1
    {
      var key := ContextId(x, y, width, height);
      ApplyResets(flags, x, y, width, height);
      var context := GetContext(x, y, width, height);
      i := Find(keys, key);
    }

    /** `context.lastUsed = this._tick++` for the context at position `i`. */
    method Touch(i: nat)
      requires Valid() && i < |contexts|
      modifies this, contexts[i]
      ensures Valid() && keys == old(keys) && contexts == old(contexts) && tick == old(tick) + 1
      ensures Entries() == old(Entries())[i := Entry(keys[i], old(Entries())[i].ctx.(lastUsed := old(tick)))]
    {
      ghost var es := Entries();
      var context := contexts[i];
      context.lastUsed := tick;
      tick := tick + 1;
      forall j | 0 <= j < |keys|
        ensures Entries()[j] == es[i := Entry(keys[i], es[i].ctx.(lastUsed := old(tick)))][j]
      {
        if j != i {
          assert contexts[j] != context;
        }
      }
    }

    /** `decodeRect` at decode timestamp `now`. */
    method DecodeRect(x: nat, y: nat, width: nat, height: nat, sock: Socket, display: Display, now: int)
      returns (r: Result<bool>)
      requires Valid() && sock.Valid()
      modifies this, contexts, sock, display
      ensures Valid() && sock.Valid() && sock.data == old(sock.data)
      ensures sock.sendQueue == old(sock.sendQueue) && sock.sent == old(sock.sent)
      ensures RectStep(old(Fields()), sock.data, old(sock.index), old(display.log), x, y, width, height, now) ==
              Decoder.Run(Fields(), sock.index, display.log, r)
    {
      ghost var reg, at := Fields(), sock.index;
      var ready, length, flags := ReadHeader(sock);
      assert Fields() == reg;
      if !ready {
        RectStepWaits(reg, sock.data, at, display.log, x, y, width, height, now);
        return Ok(false);
      }
      RectStepDone(reg, sock.data, at, display.log, x, y, width, height, now, length, flags);
      r := DecodePayload(length, flags, x, y, width, height, sock, display, now);
    }

    /** `decodeRect` once its header and payload are there. */
    method DecodePayload(length: nat, flags: nat, x: nat, y: nat, width: nat, height: nat,
                         sock: Socket, display: Display, now: int) returns (r: Result<bool>)
      requires Valid() && sock.Valid() && sock.index + length <= |sock.data|
      modifies this, contexts, sock, display
      ensures Valid() && sock.Valid() && sock.data == old(sock.data)
      ensures sock.sendQueue == old(sock.sendQueue) && sock.sent == old(sock.sent)
      ensures var a := Apply(old(Fields()), flags, ContextId(x, y, width, height), width, height,
                             sock.data[old(sock.index)..old(sock.index) + length], now);
              RectDone(a, old(sock.index) + length, old(display.log), x, y, width, height) ==
              Decoder.Run(Fields(), sock.index, display.log, r)
    {
      var i := StampContext(flags, x, y, width, height);
      assert contexts[i] in contexts;
      if length != 0 {
        r := DecodeFrame(i, length, x, y, width, height, sock, display, now);
      } else {
        r := Ok(true);
      }
    }

    /** The payload of `decodeRect` decoded by the context at position `i`,
        and the frame drawn. */
    method DecodeFrame(i: nat, length: nat, x: nat, y: nat, width: nat, height: nat,
                       sock: Socket, display: Display, now: int) returns (r: Result<bool>)
      requires Valid() && sock.Valid() && i < |contexts| && sock.index + length <= |sock.data|
      modifies contexts[i], sock, display
      ensures Valid() && sock.Valid() && sock.data == old(sock.data)
      ensures sock.sendQueue == old(sock.sendQueue) && sock.sent == old(sock.sent)
      ensures keys == old(keys) && contexts == old(contexts) && tick == old(tick)
      ensures RectDone(DecodeIn(old(Fields()), i, sock.data[old(sock.index)..old(sock.index) + length], now),
                       old(sock.index) + length, old(display.log), x, y, width, height) ==
              Decoder.Run(Fields(), sock.index, display.log, r)
    {
      ghost var at := sock.index;
      var payload := sock.ShiftBytes(length);
      assert payload == sock.data[at..][..length] == sock.data[at..at + length];
      var frame := DecodeAt(i, payload, now);
      if frame.Err? {
        return Err(frame.msg);
      }
      if frame.value.Some? {
        display.VideoFrame(x, y, width, height, frame.value.value.timestamp);
      }
      r := Ok(true);
    }
  }
}
