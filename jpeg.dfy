/** The JPEG encoding: the rectangle is a JPEG file, read marker segment by
    marker segment until the end-of-image marker and handed to the display
    as one image. Quantisation and Huffman tables are cached, because some
    servers send them only once. */
module JPEG {
  import opened Bytes
  import opened Display
  import opened Websock
  import opened Decoder

  /** The marker type of a segment: its second byte. */
  function Type(seg: seq<byte>): int
  {
    if |seg| >= 2 then seg[1] as int else -1
  }

  /** The 4-byte head of a segment with a length field. */
  function Head(t: byte, length: nat): (h: seq<byte>)
    requires length < 0x1_0000
    ensures |h| == 4
  {
    [0xFF, t, (length / 256) as byte, (length % 256) as byte]
  }

  /** The end of the entropy-coded data of a scan: 0xFF followed by a byte
      that is neither a stuffed 0x00 nor a restart marker D0-D7. */
  predicate EndsScan(a: byte, b: byte)
  {
    a == 0xFF && b != 0 && !(0xD0 <= b <= 0xD7)
  }

  /** The scan loop with window length `k` over the payload starting at
      `s`: the number of payload bytes the segment takes, `None` when the
      data ends first. */
  function ScanLength(data: seq<byte>, s: nat, k: nat): (r: Option<nat>)
    requires s <= |data| && k >= 2
    ensures r.Some? ==> k <= r.value + 2 && s + r.value + 2 <= |data|
    decreases |data| + 1 - s - k
  {
    if s + k > |data| then None
    else if EndsScan(data[s + k - 2], data[s + k - 1]) then Some(k - 2)
    else ScanLength(data, s, k + 1)
  }

  /** The scan stops at the first end marker at or after offset k - 2 of
      the payload, and waits when there is none yet. */
  lemma {:induction false} ScanFirst(data: seq<byte>, s: nat, k: nat)
    requires s <= |data| && k >= 2
    ensures var r := ScanLength(data, s, k);
            (r.Some? ==> EndsScan(data[s + r.value], data[s + r.value + 1]) &&
                         forall p :: s + k - 2 <= p < s + r.value ==> !EndsScan(data[p], data[p + 1])) &&
            (r.None? ==> forall p :: s + k - 2 <= p && p + 2 <= |data| ==> !EndsScan(data[p], data[p + 1]))
    decreases |data| + 1 - s - k
  {
    if s + k <= |data| && !EndsScan(data[s + k - 2], data[s + k - 1]) {
      ScanFirst(data, s, k + 1);
    }
  }

  /** What `_readSegment` returns, and where it leaves the read cursor. */
  datatype Seg = Seg(result: Result<Option<seq<byte>>>, at: nat)

  /** `_readSegment` from byte `at` of the received data. A null result
      leaves the cursor where it started, every byte read rewound. */
  function ReadSeg(data: seq<byte>, at: nat): (r: Seg)
    requires at <= |data|
    ensures r.at <= |data|
    ensures r.result == Ok(None) ==> r.at == at
    ensures r.result.Ok? && r.result.value.Some? ==>
              at + 2 <= r.at && r.result.value.value == data[at..r.at] && Type(r.result.value.value) == data[at + 1] as int
  {
    if |data| - at < 2 then Seg(Ok(None), at)
    else if data[at] != 0xFF then Seg(Err("Illegal JPEG marker received"), at + 1)
    else
      var t := data[at + 1];
      if 0xD0 <= t <= 0xD9 || t == 0x01 then
        assert data[at..at + 2] == [0xFF, t];
        Seg(Ok(Some([0xFF, t])), at + 2)
      else ReadLong(data, at)
  }

  /** The rest of `_readSegment`, for a marker followed by a length. */
  function ReadLong(data: seq<byte>, at: nat): (r: Seg)
    requires at + 2 <= |data| && data[at] == 0xFF
    ensures r.at <= |data|
    ensures r.result == Ok(None) ==> r.at == at
    ensures r.result.Ok? && r.result.value.Some? ==>
              at + 2 <= r.at && r.result.value.value == data[at..r.at] && Type(r.result.value.value) == data[at + 1] as int
  {
    var t := data[at + 1];
    if |data| - at < 4 then Seg(Ok(None), at)
    else
      var length := U16(data[at + 2], data[at + 3]);
      HeadOf(data, at);
      if length < 2 then Seg(Err("Illegal JPEG length received"), at + 4)
      else if |data| - (at + 4) < length - 2 then Seg(Ok(None), at)
      else if t != 0xDA then Seg(Ok(Some(Head(t, length) + data[at + 4..at + 2 + length])), at + 2 + length)
      else
        match ScanLength(data, at + 4, length)
        case None => Seg(Ok(None), at)
        case Some(n) => Seg(Ok(Some(Head(t, length) + data[at + 4..at + 4 + n])), at + 4 + n)
  }

  /** The head rebuilt from the length field is the head received. */
  lemma {:induction false} HeadOf(data: seq<byte>, at: nat)
    requires at + 4 <= |data| && data[at] == 0xFF
    ensures U16(data[at + 2], data[at + 3]) < 0x1_0000
    ensures Head(data[at + 1], U16(data[at + 2], data[at + 3])) == data[at..at + 4]
    ensures forall k: nat :: at + 4 <= k <= |data| ==>
              Head(data[at + 1], U16(data[at + 2], data[at + 3])) + data[at + 4..k] == data[at..k]
  {
    var length := U16(data[at + 2], data[at + 3]);
    assert length / 256 == data[at + 2] as int && length % 256 == data[at + 3] as int;
  }

  /** The cases that raise: a first byte other than 0xFF, and a length
      field below 2; each is seen only once its bytes are there. */
  lemma {:induction false} ReadSegErrors(data: seq<byte>, at: nat)
    requires at <= |data|
    ensures ReadSeg(data, at).result.Err? <==>
              |data| - at >= 2 &&
              (data[at] != 0xFF ||
               (var t := data[at + 1];
                !(0xD0 <= t <= 0xD9 || t == 0x01) && |data| - at >= 4 && U16(data[at + 2], data[at + 3]) < 2))
  {
  }

  /** Markers D0-D9 and 0x01 are two bytes without a length field. */
  lemma {:induction false} ReadSegShort(data: seq<byte>, at: nat)
    requires at + 2 <= |data| && data[at] == 0xFF
    requires 0xD0 <= data[at + 1] <= 0xD9 || data[at + 1] == 0x01
    ensures ReadSeg(data, at) == Seg(Ok(Some(data[at..at + 2])), at + 2)
  {
    assert data[at..at + 2] == [0xFF, data[at + 1]];
  }

  /** Any other segment but a scan takes the two marker bytes plus its
      length field. */
  lemma {:induction false} ReadSegLength(data: seq<byte>, at: nat)
    requires at + 4 <= |data| && data[at] == 0xFF
    requires var t := data[at + 1]; !(0xD0 <= t <= 0xD9 || t == 0x01) && t != 0xDA
    requires ReadSeg(data, at).result.Ok? && ReadSeg(data, at).result.value.Some?
    ensures ReadSeg(data, at).at == at + 2 + U16(data[at + 2], data[at + 3])
  {
  }

  /** A scan runs on past its length field up to the first marker that
      ends the entropy-coded data, and that marker is left unread. */
  lemma {:induction false} ReadSegScan(data: seq<byte>, at: nat)
    requires at + 4 <= |data| && data[at] == 0xFF && data[at + 1] == 0xDA
    requires ReadSeg(data, at).result.Ok? && ReadSeg(data, at).result.value.Some?
    ensures var e := ReadSeg(data, at).at;
            var length := U16(data[at + 2], data[at + 3]);
            at + 2 + length <= e && e + 2 <= |data| && EndsScan(data[e], data[e + 1]) &&
            forall p :: at + 2 + length <= p < e ==> !EndsScan(data[p], data[p + 1])
  {
    var length := U16(data[at + 2], data[at + 3]);
    var n := ScanLength(data, at + 4, length);
    assert ReadSeg(data, at) == ReadLong(data, at);
    assert n.Some? && ReadSeg(data, at).at == at + 4 + n.value;
    ScanFirst(data, at + 4, length);
  }

  /** Once a read is decided, later bytes do not change it. */
  lemma {:induction false} ReadSegExtend(d1: seq<byte>, d2: seq<byte>, at: nat)
    requires at <= |d1| && ReadSeg(d1, at).result != Ok(None)
    ensures ReadSeg(d1 + d2, at) == ReadSeg(d1, at)
  {
    var d := d1 + d2;
    assert d[..|d1|] == d1;
    if at + 4 <= |d1| {
      assert d[at..at + 4] == d1[at..at + 4];
      var length := U16(d1[at + 2], d1[at + 3]);
      if length >= 2 && at + 2 + length <= |d1| {
        assert d[at + 4..at + 2 + length] == d1[at + 4..at + 2 + length];
        if d1[at + 1] == 0xDA {
          var n := ScanLength(d1, at + 4, length);
          if n.Some? {
            ScanExtend(d1, d2, at + 4, length);
            assert d[at + 4..at + 4 + n.value] == d1[at + 4..at + 4 + n.value];
          }
        }
      }
    }
  }

  lemma {:induction false} ScanExtend(d1: seq<byte>, d2: seq<byte>, s: nat, k: nat)
    requires s <= |d1| && k >= 2 && ScanLength(d1, s, k).Some?
    ensures ScanLength(d1 + d2, s, k) == ScanLength(d1, s, k)
    decreases |d1| + 1 - s - k
  {
    var d := d1 + d2;
    assert d[s + k - 2] == d1[s + k - 2] && d[s + k - 1] == d1[s + k - 1];
    if !EndsScan(d1[s + k - 2], d1[s + k - 1]) {
      ScanExtend(d1, d2, s, k + 1);
    }
  }

  /** The bytes of segments laid end to end. */
  function Concat(segs: seq<seq<byte>>): seq<byte>
  {
    if segs == [] then [] else Concat(segs[..|segs| - 1]) + segs[|segs| - 1]
  }

  lemma {:induction false} ConcatSnoc(segs: seq<seq<byte>>, s: seq<byte>)
    ensures Concat(segs + [s]) == Concat(segs) + s
  {
    assert (segs + [s])[..|segs|] == segs;
  }

  lemma {:induction false} ConcatAppend(a: seq<seq<byte>>, b: seq<seq<byte>>)
    ensures Concat(a + b) == Concat(a) + Concat(b)
    decreases |b|
  {
    if b == [] {
      assert a + b == a;
    } else {
      var c := b[..|b| - 1];
      assert a + b == (a + c) + [b[|b| - 1]];
      ConcatSnoc(a + c, b[|b| - 1]);
      ConcatAppend(a, c);
      assert Concat(b) == Concat(c) + b[|b| - 1];
    }
  }

  /** What the segment loop of `decodeRect` leaves: the collected segments,
      the cursor and the result. */
  datatype Collected = Collected(segs: seq<seq<byte>>, at: nat, result: Result<bool>)

  /** The loop: segments are appended until the end-of-image marker D9, a
      null read or an error. Segments collected before a null read stay
      for the next call. */
  function Collect(segs: seq<seq<byte>>, data: seq<byte>, at: nat): (r: Collected)
    requires at <= |data|
    ensures at <= r.at <= |data| && segs <= r.segs
    ensures r.result == Ok(true) ==> |r.segs| > |segs|
    decreases |data| - at
  {
    var s := ReadSeg(data, at);
    if s.result.Err? then Collected(segs, s.at, Err(s.result.msg))
    else if s.result.value.None? then Collected(segs, at, Ok(false))
    else
      var seg := s.result.value.value;
      if Type(seg) == 0xD9 then Collected(segs + [seg], s.at, Ok(true))
      else Collect(segs + [seg], data, s.at)
  }

  /** The collected segments are the bytes read, in order. */
  lemma {:induction false} CollectBytes(segs: seq<seq<byte>>, data: seq<byte>, at: nat)
    requires at <= |data|
    ensures var r := Collect(segs, data, at);
            r.result.Ok? ==> Concat(r.segs) == Concat(segs) + data[at..r.at]
    decreases |data| - at
  {
    var s := ReadSeg(data, at);
    if s.result.Ok? && s.result.value.Some? {
      var seg := s.result.value.value;
      ConcatSnoc(segs, seg);
      assert seg == data[at..s.at];
      if Type(seg) != 0xD9 {
        CollectBytes(segs + [seg], data, s.at);
        var r := Collect(segs + [seg], data, s.at);
        assert Collect(segs, data, at) == r;
        if r.result.Ok? {
          assert data[at..r.at] == seg + data[s.at..r.at];
          assert Concat(r.segs) == (Concat(segs) + seg) + data[s.at..r.at];
        }
      }
    }
  }

  /** A complete image ends with the end-of-image marker. */
  lemma {:induction false} CollectEnds(segs: seq<seq<byte>>, data: seq<byte>, at: nat)
    requires at <= |data|
    ensures var r := Collect(segs, data, at);
            r.result == Ok(true) ==> r.segs[|r.segs| - 1] == [0xFF, 0xD9]
    decreases |data| - at
  {
    var s := ReadSeg(data, at);
    if s.result.Ok? && s.result.value.Some? {
      var seg := s.result.value.value;
      if Type(seg) == 0xD9 {
        EndOfImage(data, at);
      } else {
        CollectEnds(segs + [seg], data, s.at);
      }
    }
  }

  /** The end-of-image marker is read as a segment of its own two bytes. */
  lemma {:induction false} EndOfImage(data: seq<byte>, at: nat)
    requires at <= |data|
    requires var r := ReadSeg(data, at); r.result.Ok? && r.result.value.Some? && Type(r.result.value.value) == 0xD9
    ensures ReadSeg(data, at).result.value.value == [0xFF, 0xD9]
  {
    ReadSegShort(data, at);
  }

  /** Delivering a rectangle's bytes in two parts, with a call that
      returns false in between, collects what one call on all the bytes
      collects. */
  lemma {:induction false} CollectResume(segs: seq<seq<byte>>, d1: seq<byte>, d2: seq<byte>, at: nat)
    requires at <= |d1| && Collect(segs, d1, at).result == Ok(false)
    ensures var c := Collect(segs, d1, at);
            Collect(segs, d1 + d2, at) == Collect(c.segs, d1 + d2, c.at)
    decreases |d1| - at
  {
    var s := ReadSeg(d1, at);
    if s.result != Ok(None) {
      ReadSegExtend(d1, d2, at);
      var seg := s.result.value.value;
      if Type(seg) != 0xD9 {
        CollectResume(segs + [seg], d1, d2, s.at);
      }
    }
  }

  /** The segments of marker type `t`, in order. */
  function Tables(segs: seq<seq<byte>>, t: int): (r: seq<seq<byte>>)
    ensures |r| <= |segs|
  {
    if segs == [] then []
    else Tables(segs[..|segs| - 1], t) + (if Type(segs[|segs| - 1]) == t then [segs[|segs| - 1]] else [])
  }

  /** Only segments of type `t` are gathered, and none exactly when the
      image has none. */
  lemma {:induction false} TablesOf(segs: seq<seq<byte>>, t: int)
    ensures forall i :: 0 <= i < |Tables(segs, t)| ==> Type(Tables(segs, t)[i]) == t
    ensures |Tables(segs, t)| == 0 <==> forall i :: 0 <= i < |segs| ==> Type(segs[i]) != t
  {
    if segs != [] {
      var init := segs[..|segs| - 1];
      TablesOf(init, t);
      assert forall i :: 0 <= i < |init| ==> segs[i] == init[i];
    }
  }

  /** `findIndex` of the first start-of-frame segment (C0 or C2), or |segs|. */
  function SofIndex(segs: seq<seq<byte>>): (i: nat)
    ensures i <= |segs|
  {
    if segs == [] then 0
    else if Type(segs[0]) in {0xC0, 0xC2} then 0
    else SofIndex(segs[1..]) + 1
  }

  lemma {:induction false} SofIndexOf(segs: seq<seq<byte>>)
    ensures var i := SofIndex(segs);
            (i < |segs| ==> Type(segs[i]) in {0xC0, 0xC2}) &&
            forall j :: 0 <= j < i ==> Type(segs[j]) !in {0xC0, 0xC2}
  {
    if segs != [] && Type(segs[0]) !in {0xC0, 0xC2} {
      SofIndexOf(segs[1..]);
      assert forall j :: 1 <= j < |segs| ==> segs[j] == segs[1..][j - 1];
    }
  }

  /** The two `splice`s: cached quantisation tables, then cached Huffman
      tables, each inserted right after the SOF when the update has none of
      its own; the Huffman tables end up first. */
  function Spliced(segs: seq<seq<byte>>, sof: nat, cachedQuant: seq<seq<byte>>, cachedHuffman: seq<seq<byte>>): seq<seq<byte>>
    requires sof < |segs|
  {
    var afterQuant := if |Tables(segs, 0xDB)| == 0 then segs[..sof + 1] + cachedQuant + segs[sof + 1..] else segs;
    if |Tables(segs, 0xC4)| == 0 then afterQuant[..sof + 1] + cachedHuffman + afterQuant[sof + 1..] else afterQuant
  }

  /** The decoder's fields. */
  datatype State = State(cachedQuant: seq<seq<byte>>, cachedHuffman: seq<seq<byte>>, segments: seq<seq<byte>>)

  /** One `decodeRect` call. */
  function Step(st: State, data: seq<byte>, at: nat, log: seq<Call>, x: int, y: int, w: int, h: int): (o: Run<State>)
    requires at <= |data|
    ensures o.result == Ok(true) ==> o.state.segments == []
    ensures o.result != Ok(true) ==> o.state.cachedQuant == st.cachedQuant && o.state.cachedHuffman == st.cachedHuffman
  {
    var c := Collect(st.segments, data, at);
    if c.result != Ok(true) then Run(st.(segments := c.segs), c.at, log, c.result)
    else Finish(st, c.segs, c.at, log, x, y, w, h)
  }

  /** What `decodeRect` does once the end-of-image marker is in. */
  function Finish(st: State, segs: seq<seq<byte>>, at: nat, log: seq<Call>, x: int, y: int, w: int, h: int): (o: Run<State>)
    ensures o.result == Ok(true) ==> o.state.segments == []
    ensures o.result != Ok(true) ==> o.state.cachedQuant == st.cachedQuant && o.state.cachedHuffman == st.cachedHuffman
  {
    var huffman := Tables(segs, 0xC4);
    var quant := Tables(segs, 0xDB);
    var sof := SofIndex(segs);
    if sof == |segs| then Run(st.(segments := segs), at, log, Err("Illegal JPEG image without SOF"))
    else
      var image := Concat(Spliced(segs, sof, st.cachedQuant, st.cachedHuffman));
      Run(State(if |quant| > 0 then quant else st.cachedQuant, if |huffman| > 0 then huffman else st.cachedHuffman, []),
          at, log + [ImageRect(x, y, w, h, "image/jpeg", image)], Ok(true))
  }

  /** An update that brings its own tables is drawn as exactly the bytes
      received for it, and its tables replace the cached ones. */
  lemma {:induction false} StepVerbatim(st: State, data: seq<byte>, at: nat, log: seq<Call>, x: int, y: int, w: int, h: int)
    requires at <= |data| && st.segments == []
    requires var c := Collect([], data, at);
             c.result == Ok(true) && |Tables(c.segs, 0xC4)| > 0 && |Tables(c.segs, 0xDB)| > 0 && SofIndex(c.segs) < |c.segs|
    ensures var o := Step(st, data, at, log, x, y, w, h);
            var c := Collect([], data, at);
            o == Run(State(Tables(c.segs, 0xDB), Tables(c.segs, 0xC4), []), c.at,
                     log + [ImageRect(x, y, w, h, "image/jpeg", data[at..c.at])], Ok(true))
  {
    var c := Collect([], data, at);
    CollectBytes([], data, at);
    assert Concat([]) == [];
    assert Concat(c.segs) == data[at..c.at];
    FinishVerbatim(st, c.segs, c.at, log, x, y, w, h);
  }

  lemma {:induction false} FinishVerbatim(st: State, segs: seq<seq<byte>>, at: nat, log: seq<Call>, x: int, y: int, w: int, h: int)
    requires |Tables(segs, 0xC4)| > 0 && |Tables(segs, 0xDB)| > 0 && SofIndex(segs) < |segs|
    ensures Finish(st, segs, at, log, x, y, w, h) ==
            Run(State(Tables(segs, 0xDB), Tables(segs, 0xC4), []), at, log + [ImageRect(x, y, w, h, "image/jpeg", Concat(segs))], Ok(true))
  {
  }

  /** An update without tables gets the cached Huffman tables and then the
      cached quantisation tables right after its SOF, and leaves the caches
      as they were. */
  lemma {:induction false} StepUsesCache(st: State, data: seq<byte>, at: nat, log: seq<Call>, x: int, y: int, w: int, h: int)
    requires at <= |data|
    requires var c := Collect(st.segments, data, at);
             c.result == Ok(true) && |Tables(c.segs, 0xC4)| == 0 && |Tables(c.segs, 0xDB)| == 0 && SofIndex(c.segs) < |c.segs|
    ensures var o := Step(st, data, at, log, x, y, w, h);
            var c := Collect(st.segments, data, at);
            var sof := SofIndex(c.segs);
            o.result == Ok(true) && o.state == State(st.cachedQuant, st.cachedHuffman, []) &&
            o.log == log + [ImageRect(x, y, w, h, "image/jpeg",
                              Concat(c.segs[..sof + 1]) + Concat(st.cachedHuffman) + Concat(st.cachedQuant) + Concat(c.segs[sof + 1..]))]
  {
    var c := Collect(st.segments, data, at);
    assert Step(st, data, at, log, x, y, w, h) == Finish(st, c.segs, c.at, log, x, y, w, h);
    FinishUsesCache(st, c.segs, c.at, log, x, y, w, h);
  }

  lemma {:induction false} FinishUsesCache(st: State, segs: seq<seq<byte>>, at: nat, log: seq<Call>, x: int, y: int, w: int, h: int)
    requires |Tables(segs, 0xC4)| == 0 && |Tables(segs, 0xDB)| == 0 && SofIndex(segs) < |segs|
    ensures var o := Finish(st, segs, at, log, x, y, w, h);
            var sof := SofIndex(segs);
            o == Run(State(st.cachedQuant, st.cachedHuffman, []), at,
                     log + [ImageRect(x, y, w, h, "image/jpeg",
                              Concat(segs[..sof + 1]) + Concat(st.cachedHuffman) + Concat(st.cachedQuant) + Concat(segs[sof + 1..]))], Ok(true))
  {
    var sof := SofIndex(segs);
    var a := segs[..sof + 1] + st.cachedQuant + segs[sof + 1..];
    assert a[..sof + 1] == segs[..sof + 1] && a[sof + 1..] == st.cachedQuant + segs[sof + 1..];
    var all := segs[..sof + 1] + st.cachedHuffman + (st.cachedQuant + segs[sof + 1..]);
    assert Spliced(segs, sof, st.cachedQuant, st.cachedHuffman) == all;
    ConcatAppend(segs[..sof + 1] + st.cachedHuffman, st.cachedQuant + segs[sof + 1..]);
    ConcatAppend(segs[..sof + 1], st.cachedHuffman);
    ConcatAppend(st.cachedQuant, segs[sof + 1..]);
    var p, q, u, v := Concat(segs[..sof + 1]), Concat(st.cachedHuffman), Concat(st.cachedQuant), Concat(segs[sof + 1..]);
    assert Concat(all) == (p + q) + (u + v);
    assert (p + q) + (u + v) == p + q + u + v;
    assert Finish(st, segs, at, log, x, y, w, h).log == log + [ImageRect(x, y, w, h, "image/jpeg", Concat(all))];
  }

  /** A complete image without a start-of-frame segment raises, and its
      segments stay queued. */
  lemma {:induction false} StepWithoutSof(st: State, data: seq<byte>, at: nat, log: seq<Call>, x: int, y: int, w: int, h: int)
    requires at <= |data|
    requires var c := Collect(st.segments, data, at);
             c.result == Ok(true) && forall i :: 0 <= i < |c.segs| ==> Type(c.segs[i]) != 0xC0 && Type(c.segs[i]) != 0xC2
    ensures var o := Step(st, data, at, log, x, y, w, h);
            o.result.Err? && o.log == log && o.state.segments == Collect(st.segments, data, at).segs
  {
    SofIndexOf(Collect(st.segments, data, at).segs);
  }

  /** Resuming after a false return gives what one call on all the bytes
      gives. */
  lemma {:induction false} StepResume(st: State, d1: seq<byte>, d2: seq<byte>, at: nat, log: seq<Call>, x: int, y: int, w: int, h: int)
    requires at <= |d1| && Step(st, d1, at, log, x, y, w, h).result == Ok(false)
    ensures var o1 := Step(st, d1, at, log, x, y, w, h);
            Step(o1.state, d1 + d2, o1.at, o1.log, x, y, w, h) == Step(st, d1 + d2, at, log, x, y, w, h)
  {
    CollectResume(st.segments, d1, d2, at);
  }

  class JPEGDecoder {
    var cachedQuantTables: seq<seq<byte>>
    var cachedHuffmanTables: seq<seq<byte>>
    var segments: seq<seq<byte>>

    function Fields(): State
      reads this
    {
      State(cachedQuantTables, cachedHuffmanTables, segments)
    }

    constructor()
      ensures Fields() == State([], [], [])
    {
      cachedQuantTables := [];
      cachedHuffmanTables := [];
      segments := [];
    }

    method DecodeRect(x: int, y: int, width: int, height: int, sock: Socket, display: Display)
      returns (r: Result<bool>)
      requires sock.Valid()
      modifies this, sock, display
      ensures sock.Valid() && sock.data == old(sock.data)
      ensures sock.sendQueue == old(sock.sendQueue) && sock.sent == old(sock.sent)
      ensures Step(old(Fields()), sock.data, old(sock.index), old(display.log), x, y, width, height) ==
              Run(Fields(), sock.index, display.log, r)
    {
      r := CollectSegments(sock);
      if r != Ok(true) {
        return;
      }
      var huffmanTables, quantTables := SplitTables();
      var sofIndex := SofIndex(segments);
      if sofIndex == |segments| {
        return Err("Illegal JPEG image without SOF");
      }
      if |quantTables| == 0 {
        segments := segments[..sofIndex + 1] + cachedQuantTables + segments[sofIndex + 1..];
      }
      if |huffmanTables| == 0 {
        segments := segments[..sofIndex + 1] + cachedHuffmanTables + segments[sofIndex + 1..];
      }
      var data := Join();
      display.ImageRect(x, y, width, height, "image/jpeg", data);
      if |huffmanTables| != 0 {
        cachedHuffmanTables := huffmanTables;
      }
      if |quantTables| != 0 {
        cachedQuantTables := quantTables;
      }
      segments := [];
      r := Ok(true);
    }

    /** The `while (true)` loop over `_readSegment`. */
    method CollectSegments(sock: Socket) returns (r: Result<bool>)
      requires sock.Valid()
      modifies this, sock
      ensures sock.Valid() && sock.data == old(sock.data)
      ensures sock.sendQueue == old(sock.sendQueue) && sock.sent == old(sock.sent)
      ensures cachedQuantTables == old(cachedQuantTables) && cachedHuffmanTables == old(cachedHuffmanTables)
      ensures Collect(old(segments), sock.data, old(sock.index)) == Collected(segments, sock.index, r)
    {
      while true
        invariant sock.Valid() && sock.data == old(sock.data)
        invariant sock.sendQueue == old(sock.sendQueue) && sock.sent == old(sock.sent)
        invariant cachedQuantTables == old(cachedQuantTables) && cachedHuffmanTables == old(cachedHuffmanTables)
        invariant Collect(old(segments), sock.data, old(sock.index)) == Collect(segments, sock.data, sock.index)
        decreases |sock.data| - sock.index
      {
        ghost var at := sock.index;
        var segment := ReadSegment(sock);
        if segment.Err? {
          return Err(segment.msg);
        }
        if segment.value.None? {
          return Ok(false);
        }
        segments := segments + [segment.value.value];
        if segment.value.value[1] == 0xD9 {
          return Ok(true);
        }
      }
    }

    /** The `for ... of` loop that gathers the Huffman (C4) and the
        quantisation (DB) tables. */
    method SplitTables() returns (huffmanTables: seq<seq<byte>>, quantTables: seq<seq<byte>>)
      ensures huffmanTables == Tables(segments, 0xC4) && quantTables == Tables(segments, 0xDB)
    {
      huffmanTables, quantTables := [], [];
      var i := 0;
      while i < |segments|
        invariant i <= |segments|
        invariant huffmanTables == Tables(segments[..i], 0xC4) && quantTables == Tables(segments[..i], 0xDB)
      {
        assert segments[..i + 1][..i] == segments[..i];
        var t := Type(segments[i]);
        if t == 0xC4 {
          huffmanTables := huffmanTables + [segments[i]];
        } else if t == 0xDB {
          quantTables := quantTables + [segments[i]];
        }
        i := i + 1;
      }
      assert segments[..i] == segments;
    }

    /** The two loops that size the image and copy the segments into it. */
    method Join() returns (data: seq<byte>)
      ensures data == Concat(segments)
    {
      data := [];
      var i := 0;
      while i < |segments|
        invariant i <= |segments| && data == Concat(segments[..i])
      {
        assert segments[..i + 1][..i] == segments[..i];
        data := data + segments[i];
        i := i + 1;
      }
      assert segments[..i] == segments;
    }

    /** `_readSegment`. */
    method ReadSegment(sock: Socket) returns (r: Result<Option<seq<byte>>>)
      requires sock.Valid()
      modifies sock
      ensures sock.Valid() && sock.data == old(sock.data)
      ensures sock.sendQueue == old(sock.sendQueue) && sock.sent == old(sock.sent)
      ensures Seg(r, sock.index) == ReadSeg(sock.data, old(sock.index))
    {
      ghost var at := sock.index;
      var w := sock.Wait(2, 0);
      if w != Ok(false) {
        return Ok(None);
      }
      var marker := sock.Shift8();
      if marker != 0xFF {
        return Err("Illegal JPEG marker received");
      }
      var t := sock.Shift8();
      if 0xD0 <= t <= 0xD9 || t == 0x01 {
        return Ok(Some([marker, t]));
      }
      r := ReadLongSegment(sock, t);
    }

    /** `_readSegment` after a marker that a length follows. */
    static method ReadLongSegment(sock: Socket, t: byte) returns (r: Result<Option<seq<byte>>>)
      requires sock.Valid() && sock.index >= 2 && sock.data[sock.index - 2] == 0xFF && sock.data[sock.index - 1] == t
      modifies sock
      ensures sock.Valid() && sock.data == old(sock.data)
      ensures sock.sendQueue == old(sock.sendQueue) && sock.sent == old(sock.sent)
      ensures Seg(r, sock.index) == ReadLong(sock.data, old(sock.index) - 2)
    {
      ghost var at := sock.index - 2;
      var w := sock.Wait(2, 2);
      if w != Ok(false) {
        return Ok(None);
      }
      var length := sock.Shift16();
      HeadOf(sock.data, at);
      if length < 2 {
        return Err("Illegal JPEG length received");
      }
      w := sock.Wait(length - 2, 4);
      if w != Ok(false) {
        return Ok(None);
      }
      var n := length - 2;
      if t == 0xDA {
        var scanned := ScanSegment(sock, length);
        if scanned.None? {
          return Ok(None);
        }
        n := scanned.value;
      }
      var segment := Head(t, length) + sock.data[sock.index..sock.index + n];
      sock.SkipBytes(n);
      r := Ok(Some(segment));
    }

    /** The scan loop of `_readSegment`: the window grows one byte at a
        time until its last two bytes end the scan. A null result rewinds
        the 4 head bytes. */
    static method ScanSegment(sock: Socket, length: nat) returns (n: Option<nat>)
      requires sock.Valid() && sock.index >= 4 && length >= 2
      modifies sock
      ensures sock.Valid() && sock.data == old(sock.data)
      ensures sock.sendQueue == old(sock.sendQueue) && sock.sent == old(sock.sent)
      ensures n == ScanLength(sock.data, old(sock.index), length)
      ensures sock.index == if n.None? then old(sock.index) - 4 else old(sock.index)
    {
      var extra := 2;
      while true
        invariant sock.Valid() && sock.data == old(sock.data) && sock.index == old(sock.index)
        invariant sock.sendQueue == old(sock.sendQueue) && sock.sent == old(sock.sent)
        invariant extra >= 2 && ScanLength(sock.data, sock.index, length) == ScanLength(sock.data, sock.index, length - 2 + extra)
        decreases |sock.data| + 1 - sock.index - (length - 2 + extra)
      {
        var w := sock.Wait(length - 2 + extra, 4);
        if w != Ok(false) {
          return None;
        }
        var peekData := sock.PeekBytes(length - 2 + extra);
        var k := |peekData|;
        if peekData[k - 2] == 0xFF && peekData[k - 1] != 0x00 && !(0xD0 <= peekData[k - 1] <= 0xD7) {
          extra := extra - 2;
          return Some(length - 2 + extra);
        }
        extra := extra + 1;
      }
    }
  }
}
