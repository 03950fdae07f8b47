/** The Tight encoding and its TightPNG variant.

    A rectangle starts with a compression-control byte: its low nibble
    resets zlib streams, its high nibble picks fill (8), JPEG (9), PNG (10)
    or basic compression (0-7: stream id in the low two bits, an explicit
    filter byte when bit 4 is set). Basic compression carries RGB, palette
    or gradient-predicted pixels, raw when fewer than 12 bytes and
    otherwise zlib-compressed behind a compact length. The control byte,
    the filter, the palette size and the pending block length survive a
    call that runs out of data. */
module Tight {
  import opened Bytes
  import opened Display
  import opened Websock
  import opened Decoder
  import opened Inflator

  const PaletteBytes: nat := 1024

  /** The resume fields: the mode nibble of the control byte, the filter,
      the palette size (0 when the palette is still to be read), the
      palette buffer, the length of a pending data block and the four
      zlib streams. */
  datatype TightState = TightState(ctl: Option<nat>, filter: Option<byte>, numColors: nat,
                                   palette: seq<byte>, len: nat, zlibs: seq<ZState>)

  predicate WellFormed(st: TightState)
  {
    |st.palette| == PaletteBytes && |st.zlibs| == 4 && (st.ctl.Some? ==> st.ctl.value < 16)
  }

  /* ---------- The control byte ---------- */

  /** Bit `i` of the control byte asks for a reset of zlib stream `i`. */
  predicate ResetsStream(b: byte, i: nat)
  {
    (b as nat / Pow2(i)) % 2 == 1
  }

  /** The streams after the resets a control byte asks for. */
  function ResetStreams(zs: seq<ZState>, b: byte): (r: seq<ZState>)
    requires |zs| == 4
    ensures |r| == 4
    ensures forall i :: 0 <= i < 4 ==> r[i] == if ResetsStream(b, i) then ZState([], []) else zs[i]
  {
    seq(4, i requires 0 <= i < 4 => if ResetsStream(b, i) then ZState([], []) else zs[i])
  }

  /** Stream `i` once control byte `b` is read. */
  function ResetOne(z: ZState, b: byte, i: nat): ZState
  {
    if ResetsStream(b, i) then ZState([], []) else z
  }

  /** The streams once the first `n` bits of `b` have been acted on. */
  function ResetsBelow(zs: seq<ZState>, b: byte, n: nat): (r: seq<ZState>)
    requires |zs| == 4 && n <= 4
    ensures |r| == 4
  {
    seq(4, i requires 0 <= i < 4 => if i < n then ResetOne(zs[i], b, i) else zs[i])
  }

  /** Acting on one more bit resets one more stream, and after the fourth
      bit the streams are those of `ResetStreams`. */
  lemma {:induction false} ResetsBelowNext(zs: seq<ZState>, b: byte, n: nat)
    requires |zs| == 4 && n < 4
    ensures ResetsBelow(zs, b, n)[n := ResetOne(ResetsBelow(zs, b, n)[n], b, n)] == ResetsBelow(zs, b, n + 1)
    ensures n == 3 ==> ResetsBelow(zs, b, 4) == ResetStreams(zs, b)
  {
  }

  /** The state once control byte `b` is read: streams reset from its low
      nibble, the mode taken from its high nibble. */
  function Control(st: TightState, b: byte): (r: TightState)
    requires WellFormed(st)
    ensures WellFormed(r) && r.ctl == Some(b as nat / 16)
    ensures r.zlibs == ResetStreams(st.zlibs, b)
  {
    st.(ctl := Some(b as nat / 16), zlibs := ResetStreams(st.zlibs, b))
  }

  /* ---------- Compact lengths and data blocks ---------- */

  /** A compact length at the start of `u`: seven bits per byte, low bits
      first, continued while the top bit is set; a third byte counts with
      all eight bits. The value and the number of bytes it takes. */
  function CompactLength(u: seq<byte>): (r: (nat, nat))
    requires |u| >= 3
    ensures 1 <= r.1 <= 3 && r.0 < 0x40_0000
  {
    if u[0] < 128 then (u[0] as nat, 1)
    else if u[1] < 128 then (u[0] as nat - 128 + u[1] as nat * 128, 2)
    else (u[0] as nat - 128 + (u[1] as nat - 128) * 128 + u[2] as nat * 16384, 3)
  }

  /** The shortest compact-length encoding of `n`, as a server writes it. */
  function EncodeLength(n: nat): (r: seq<byte>)
    requires n < 0x40_0000
    ensures 1 <= |r| <= 3
  {
    if n < 128 then [n as byte]
    else if n < 16384 then [(n % 128 + 128) as byte, (n / 128) as byte]
    else [(n % 128 + 128) as byte, (n / 128 % 128 + 128) as byte, (n / 16384) as byte]
  }

  /** Decoding an encoded length gives the length back and consumes
      exactly its encoding, whatever follows it. */
  lemma {:induction false} LengthRoundTrip(n: nat, rest: seq<byte>)
    requires n < 0x40_0000 && |EncodeLength(n) + rest| >= 3
    ensures CompactLength(EncodeLength(n) + rest) == (n, |EncodeLength(n)|)
  {
    var e := EncodeLength(n);
    var u := e + rest;
    if n >= 16384 {
      assert u[0] as nat == n % 128 + 128 && u[1] as nat == n / 128 % 128 + 128 && u[2] as nat == n / 16384;
      assert n / 128 == n / 128 % 128 + n / 16384 * 128;
    } else if n >= 128 {
      assert u[0] as nat == n % 128 + 128 && u[1] as nat == n / 128;
    }
  }

  /** What `_readData` does: the new pending length, the bytes consumed and
      the block, or no block when it has not fully arrived. */
  datatype Read = Read(len: nat, consumed: nat, block: Option<seq<byte>>)

  function DataBlock(len: nat, u: seq<byte>): (r: Read)
    ensures r.consumed <= |u|
    ensures r.block.Some? ==> r.len == 0 && r.consumed >= |r.block.value| &&
                              r.block.value == u[r.consumed - |r.block.value|..r.consumed]
  {
    if len == 0 && |u| < 3 then Read(0, 0, None)
    else
      var (n, k) := if len == 0 then CompactLength(u) else (len, 0);
      if |u| - k < n then Read(n, k, None)
      else Read(0, k + n, Some(u[k..k + n]))
  }

  /** A block framed as a server frames it, its compact length and then
      its bytes, is read back whole: exactly the length and the block are
      consumed, whatever follows, and the pending length is clear again.
      With the length already pending, the block alone is read. */
  lemma {:induction false} DataBlockFraming(b: seq<byte>, rest: seq<byte>)
    requires |b| < 0x40_0000 && |EncodeLength(|b|) + b + rest| >= 3
    ensures DataBlock(0, EncodeLength(|b|) + b + rest) == Read(0, |EncodeLength(|b|)| + |b|, Some(b))
    ensures |b| > 0 ==> DataBlock(|b|, b + rest) == Read(0, |b|, Some(b))
  {
    var e := EncodeLength(|b|);
    var u := e + b + rest;
    assert u == e + (b + rest);
    LengthRoundTrip(|b|, b + rest);
    assert u[|e|..|e| + |b|] == b;
    assert (b + rest)[..|b|] == b;
  }

  /** A framed block that has not fully arrived yields nothing: with fewer
      than three bytes queued nothing is read, and otherwise the length is
      consumed and kept pending while the block still waits. */
  lemma {:induction false} DataBlockWaits(b: seq<byte>, part: nat)
    requires |b| < 0x40_0000 && part < |b|
    ensures var u := EncodeLength(|b|) + b[..part];
            (|u| < 3 ==> DataBlock(0, u) == Read(0, 0, None)) &&
            (|u| >= 3 ==> DataBlock(0, u) == Read(|b|, |EncodeLength(|b|)|, None))
  {
    var u := EncodeLength(|b|) + b[..part];
    if |u| >= 3 {
      LengthRoundTrip(|b|, b[..part]);
    }
  }

  /** A block split over two deliveries is read exactly as if it had come
      at once. */
  lemma {:induction false} DataBlockResume(len: nat, u1: seq<byte>, u2: seq<byte>)
    requires DataBlock(len, u1).block.None?
    ensures var r1 := DataBlock(len, u1);
            var r2 := DataBlock(r1.len, u1[r1.consumed..] + u2);
            DataBlock(len, u1 + u2) == Read(r2.len, r1.consumed + r2.consumed, r2.block)
  {
    var r1 := DataBlock(len, u1);
    var u := u1 + u2;
    if len == 0 && |u1| >= 3 {
      assert u[..3] == u1[..3];
      var (n, k) := CompactLength(u1);
      assert CompactLength(u) == (n, k);
      assert u[k..] == u1[k..] + u2;
      if |u| - k >= n {
        assert u[k..k + n] == (u1[k..] + u2)[..n];
      }
    } else if len > 0 {
      assert u1[0..] == u1;
    } else {
      assert u1[0..] == u1;
    }
  }

  /** Bytes after a complete block are not read. */
  lemma {:induction false} DataBlockExtend(len: nat, u1: seq<byte>, u2: seq<byte>)
    requires DataBlock(len, u1).block.Some?
    ensures DataBlock(len, u1 + u2) == DataBlock(len, u1)
  {
    var u := u1 + u2;
    if len == 0 {
      assert u[..3] == u1[..3];
      assert CompactLength(u) == CompactLength(u1);
    }
    var (n, k) := if len == 0 then CompactLength(u1) else (len, 0);
    assert u[k..k + n] == u1[k..k + n];
  }

  /* ---------- Uncompressed data of basic compression ---------- */

  /** The data of a basic rectangle: the state with the pending length and
      the stream updated, the bytes consumed, and the data, no data yet, or
      an error from the inflator. */
  datatype Fetch = Fetch(state: TightState, consumed: nat, data: Result<Option<seq<byte>>>)

  /** `size` uncompressed bytes on stream `sid`: raw below 12 bytes, and
      otherwise a compact-length block inflated to exactly `size` bytes. */
  function FetchBlock(st: TightState, u: seq<byte>, sid: nat, size: nat, codec: Codec): (f: Fetch)
    requires WellFormed(st) && sid < 4 && size > 0
    ensures WellFormed(f.state) && f.consumed <= |u|
    ensures f.state.ctl == st.ctl && f.state.filter == st.filter
    ensures f.state.numColors == st.numColors && f.state.palette == st.palette
    ensures f.data.Ok? && f.data.value.Some? ==> |f.data.value.value| == size
  {
    if size < 12 then
      if |u| < size then Fetch(st, 0, Ok(None)) else Fetch(st, size, Ok(Some(u[..size])))
    else
      var rd := DataBlock(st.len, u);
      if rd.block.None? then Fetch(st.(len := rd.len), rd.consumed, Ok(None))
      else
        var (z, res) := InflateBlock(st.zlibs[sid], codec, rd.block.value, size);
        var st' := st.(len := rd.len, zlibs := st.zlibs[sid := z]);
        match res
        case Err(e) => Fetch(st', rd.consumed, Err(e))
        case Ok(d) => Fetch(st', rd.consumed, Ok(Some(d)))
  }

  /** Below 12 bytes the data is the next `size` bytes and no stream is
      touched; from 12 bytes on it is the first `size` bytes the stream
      yields for the block, an error when it yields fewer, and only stream
      `sid` changes. */
  lemma {:induction false} FetchThreshold(st: TightState, u: seq<byte>, sid: nat, size: nat, codec: Codec)
    requires WellFormed(st) && sid < 4 && size > 0
    ensures var f := FetchBlock(st, u, sid, size, codec);
            (size < 12 ==> f.state == st && f.data == (if |u| < size then Ok(None) else Ok(Some(u[..size])))) &&
            (size >= 12 ==>
               var rd := DataBlock(st.len, u);
               f.consumed == rd.consumed && f.state.len == rd.len &&
               (forall i :: 0 <= i < 4 && i != sid ==> f.state.zlibs[i] == st.zlibs[i]) &&
               (rd.block.None? ==> f.data == Ok(None) && f.state.zlibs == st.zlibs) &&
               (rd.block.Some? ==>
                  var out := codec(st.zlibs[sid].history, rd.block.value);
                  f.state.zlibs[sid].history == st.zlibs[sid].history + [rd.block.value] &&
                  (size <= |out| ==> f.data == Ok(Some(out[..size]))) &&
                  (size > |out| ==> f.data.Err?)))
  {
  }

  lemma {:induction false} FetchResume(st: TightState, u1: seq<byte>, u2: seq<byte>, sid: nat, size: nat, codec: Codec)
    requires WellFormed(st) && sid < 4 && size > 0
    requires FetchBlock(st, u1, sid, size, codec).data == Ok(None)
    ensures var f1 := FetchBlock(st, u1, sid, size, codec);
            var f2 := FetchBlock(f1.state, u1[f1.consumed..] + u2, sid, size, codec);
            FetchBlock(st, u1 + u2, sid, size, codec) == Fetch(f2.state, f1.consumed + f2.consumed, f2.data)
  {
    var u := u1 + u2;
    if size < 12 {
      assert u1[0..] == u1;
    } else {
      DataBlockResume(st.len, u1, u2);
    }
  }

  lemma {:induction false} FetchExtend(st: TightState, u1: seq<byte>, u2: seq<byte>, sid: nat, size: nat, codec: Codec)
    requires WellFormed(st) && sid < 4 && size > 0
    requires FetchBlock(st, u1, sid, size, codec).data != Ok(None)
    ensures FetchBlock(st, u1 + u2, sid, size, codec) == FetchBlock(st, u1, sid, size, codec)
  {
    if size < 12 {
      assert (u1 + u2)[..size] == u1[..size];
    } else {
      DataBlockExtend(st.len, u1, u2);
    }
  }

  /* ---------- Pixel conversions ---------- */

  /** Copy filter: RGB triples to RGBX with an opaque alpha byte. */
  function Rgbx(data: seq<byte>, n: nat): (r: seq<byte>)
    requires |data| == n * 3
    ensures |r| == n * 4
  {
    seq(n * 4, k requires 0 <= k < n * 4 => if k % 4 == 3 then 255 else data[3 * (k / 4) + k % 4])
  }

  /** Pixel `p` is the `p`-th triple followed by alpha 255. */
  lemma {:induction false} RgbxPixel(data: seq<byte>, n: nat, p: nat)
    requires |data| == n * 3 && p < n
    ensures Rgbx(data, n)[4 * p..4 * p + 4] == data[3 * p..3 * p + 3] + [255]
  {
    RgbxAt(data, n, p, 0);
    RgbxAt(data, n, p, 1);
    RgbxAt(data, n, p, 2);
    RgbxAt(data, n, p, 3);
  }

  /** The 8-bit palette path: pixel `j` takes the three palette bytes at
      `3 * data[j]`; past the end of the data the colour bytes are 0. */
  function PaletteRgbx(palette: seq<byte>, data: seq<byte>, n: nat): (r: seq<byte>)
    requires |palette| == PaletteBytes
    ensures |r| == n * 4
  {
    seq(n * 4, k requires 0 <= k < n * 4 =>
      if k % 4 == 3 then 255
      else if k / 4 < |data| then palette[3 * data[k / 4] as nat + k % 4]
      else 0)
  }

  /** Pixel `j` present in the data is palette entry `data[j]`; a pixel
      past the end of the data is black. Alpha is always 255. */
  lemma {:induction false} PalettePixel(palette: seq<byte>, data: seq<byte>, n: nat, j: nat)
    requires |palette| == PaletteBytes && j < n
    ensures var r := PaletteRgbx(palette, data, n);
            var e := if j < |data| then 3 * data[j] as nat else 0;
            r[4 * j..4 * j + 4] == (if j < |data| then palette[e..e + 3] else [0, 0, 0]) + [255]
  {
    var r := PaletteRgbx(palette, data, n);
    assert r[4 * j] == r[4 * j + 0];
  }

  /** Bytes per row of palette data: one bit per pixel for at most two
      colours, else a byte per pixel; rows are padded to whole bytes. */
  function RowSize(numColors: nat, w: nat): nat
  {
    var bpp := if numColors <= 2 then 1 else 8;
    (w * bpp + 7) / 8
  }

  /** Row `y`, column `x` of a `w`-wide rectangle is pixel `y * w + x`. */
  lemma {:induction false} PixelIndex(p: nat, w: nat, h: nat)
    requires p < w * h
    ensures w > 0 && p / w < h && p % w < w && p == p / w * w + p % w
  {
    if p / w >= h {
      MulLe(h, p / w, w);
    }
  }

  lemma {:induction false} RowIndex(y: nat, x: nat, w: nat, h: nat)
    requires y < h && x < w
    ensures y * w + x < w * h
  {
    MulLe(y + 1, h, w);
  }

  /** Palette entry (0 or 1) of the pixel in row `y`, column `x` of a
      two-colour rectangle: bit `7 - x % 8` of byte `x / 8` of the row,
      most significant bit first, each row starting on a new byte. */
  function MonoBit(data: seq<byte>, w: nat, h: nat, y: nat, x: nat): (b: nat)
    requires |data| == RowSize(2, w) * h && y < h && x < w
    ensures b <= 1
  {
    RowIndex(y, x / 8, RowSize(2, w), h);
    (data[y * RowSize(2, w) + x / 8] as nat / Pow2(7 - x % 8)) % 2
  }

  /** Channel `c` of pixel `p` of a two-colour rectangle. */
  function MonoByte(palette: seq<byte>, data: seq<byte>, w: nat, h: nat, p: nat, c: nat): byte
    requires |palette| == PaletteBytes && |data| == RowSize(2, w) * h && p < w * h && c < 3
  {
    PixelIndex(p, w, h);
    palette[3 * MonoBit(data, w, h, p / w, p % w) + c]
  }

  function Mono(palette: seq<byte>, data: seq<byte>, w: nat, h: nat): (r: seq<byte>)
    requires |palette| == PaletteBytes && |data| == RowSize(2, w) * h
    ensures |r| == w * h * 4
  {
    seq(w * h * 4, k requires 0 <= k < w * h * 4 =>
      if k % 4 == 3 then 255 else MonoByte(palette, data, w, h, k / 4, k % 4))
  }

  /** A two-colour rectangle draws only the two palette colours, opaque. */
  lemma {:induction false} MonoTwoColours(palette: seq<byte>, data: seq<byte>, w: nat, h: nat, p: nat)
    requires |palette| == PaletteBytes && |data| == RowSize(2, w) * h && p < w * h
    ensures var px := Mono(palette, data, w, h)[4 * p..4 * p + 4];
            px == palette[0..3] + [255] || px == palette[3..6] + [255]
  {
    var r := Mono(palette, data, w, h);
    var b := MonoColour(palette, data, w, h, p);
    MonoAt(palette, data, w, h, p, 0);
    MonoAt(palette, data, w, h, p, 1);
    MonoAt(palette, data, w, h, p, 2);
    MonoAt(palette, data, w, h, p, 3);
    OpaquePixel(r, p, palette[3 * b..3 * b + 3]);
    if b == 0 {
      assert palette[3 * b..3 * b + 3] == palette[0..3];
    } else {
      assert palette[3 * b..3 * b + 3] == palette[3..6];
    }
  }

  /** Four bytes holding a colour followed by alpha 255. */
  lemma {:induction false} OpaquePixel(r: seq<byte>, p: nat, q: seq<byte>)
    requires 4 * p + 4 <= |r| && |q| == 3
    requires r[4 * p] == q[0] && r[4 * p + 1] == q[1] && r[4 * p + 2] == q[2] && r[4 * p + 3] == 255
    ensures r[4 * p..4 * p + 4] == q + [255]
  {
  }

  /** The palette entry, 0 or 1, that pixel `p` takes its colour from. */
  lemma {:induction false} MonoColour(palette: seq<byte>, data: seq<byte>, w: nat, h: nat, p: nat) returns (b: nat)
    requires |palette| == PaletteBytes && |data| == RowSize(2, w) * h && p < w * h
    ensures b <= 1
    ensures MonoByte(palette, data, w, h, p, 0) == palette[3 * b]
    ensures MonoByte(palette, data, w, h, p, 1) == palette[3 * b + 1]
    ensures MonoByte(palette, data, w, h, p, 2) == palette[3 * b + 2]
  {
    PixelIndex(p, w, h);
    b := MonoBit(data, w, h, p / w, p % w);
  }

  /** Byte `c` of pixel `p` in the drawn two-colour rectangle. */
  lemma {:induction false} MonoAt(palette: seq<byte>, data: seq<byte>, w: nat, h: nat, p: nat, c: nat)
    requires |palette| == PaletteBytes && |data| == RowSize(2, w) * h && p < w * h && c < 4
    ensures c < 3 ==> Mono(palette, data, w, h)[4 * p + c] == MonoByte(palette, data, w, h, p, c)
    ensures c == 3 ==> Mono(palette, data, w, h)[4 * p + c] == 255
  {
    Quad(p, c);
  }

  /** Byte `c` of pixel `p` of a four-byte-per-pixel buffer sits at `4 * p + c`. */
  lemma {:induction false} Quad(p: nat, c: nat)
    requires c < 4
    ensures (4 * p + c) / 4 == p && (4 * p + c) % 4 == c
  {
  }

  /** The first eight pixels of every row come from the row's first byte,
      most significant bit first. */
  lemma {:induction false} MonoRowStart(data: seq<byte>, w: nat, h: nat, y: nat, i: nat)
    requires |data| == RowSize(2, w) * h && y < h && i < 8 && i < w
    ensures MonoBit(data, w, h, y, i) == (data[y * RowSize(2, w)] as nat / Pow2(7 - i)) % 2
  {
  }

  /** `min(max(v, 0), 255)`. */
  function Clamp(v: int): (r: int)
    ensures 0 <= r <= 255
    ensures 0 <= v <= 255 ==> r == v
  {
    if v < 0 then 0 else if v > 255 then 255 else v
  }

  /** Channel `c` of pixel `p`, in column `x`, after the gradient filter:
      the residual plus the clamped prediction left + up - upper-left,
      modulo 256, where a neighbour outside the rectangle counts as 0. The
      pixel has a row above it when `p - x`, the start of its row, is at
      least `w`. */
  function GradValue(data: seq<byte>, w: nat, p: nat, x: nat, c: nat): byte
    requires x < w && x <= p && c < 3 && 3 * p + 3 <= |data|
    decreases p
  {
    var left := if x > 0 then GradValue(data, w, p - 1, x - 1, c) as int else 0;
    var up := if p - x >= w then GradValue(data, w, p - w, x, c) as int else 0;
    var upLeft := if x > 0 && p - x >= w then GradValue(data, w, p - w - 1, x - 1, c) as int else 0;
    ((data[3 * p + c] as int + Clamp(left + up - upLeft)) % 256) as byte
  }

  /** Channel `c` of pixel `p` of a gradient rectangle. */
  function GradByte(data: seq<byte>, w: nat, h: nat, p: nat, c: nat): byte
    requires |data| == w * h * 3 && p < w * h && c < 3
  {
    PixelIndex(p, w, h);
    GradValue(data, w, p, p % w, c)
  }

  function Gradient(data: seq<byte>, w: nat, h: nat): (r: seq<byte>)
    requires |data| == w * h * 3
    ensures |r| == w * h * 4
  {
    seq(w * h * 4, k requires 0 <= k < w * h * 4 =>
      if k % 4 == 3 then 255 else GradByte(data, w, h, k / 4, k % 4))
  }

  /** The residual a server sends for channel `c` of pixel `p`, in column
      `x`, of image `img` (RGB triples, width `w`). */
  function Residual(img: seq<byte>, w: nat, p: nat, x: nat, c: nat): byte
    requires x < w && x <= p && c < 3 && 3 * p + 3 <= |img|
  {
    var left := if x > 0 then img[3 * (p - 1) + c] as int else 0;
    var up := if p - x >= w then img[3 * (p - w) + c] as int else 0;
    var upLeft := if x > 0 && p - x >= w then img[3 * (p - w - 1) + c] as int else 0;
    ((img[3 * p + c] as int - Clamp(left + up - upLeft)) % 256) as byte
  }

  function ResidualAt(img: seq<byte>, w: nat, h: nat, p: nat, c: nat): byte
    requires |img| == w * h * 3 && p < w * h && c < 3
  {
    PixelIndex(p, w, h);
    Residual(img, w, p, p % w, c)
  }

  /** Gradient-filter encoding of a whole `w` by `h` image. */
  function GradientEncode(img: seq<byte>, w: nat, h: nat): (r: seq<byte>)
    requires |img| == w * h * 3
    ensures |r| == |img|
  {
    seq(|img|, k requires 0 <= k < |img| => ResidualAt(img, w, h, k / 3, k % 3))
  }

  /** Adding back the prediction undoes the residual, modulo 256. */
  lemma {:induction false} ResidualInverse(g: byte, e: byte, v: byte, pred: int)
    requires e == ((v as int - pred) % 256) as byte && g as int == (e as int + pred) % 256
    ensures g == v
  {
    var r := (v as int - pred) % 256;
    assert (r + pred) % 256 == (v as int) % 256 by {
      assert r == v as int - pred - 256 * ((v as int - pred) / 256);
    }
  }

  /** One unfolding of `GradValue`, with its neighbours named. */
  lemma {:induction false} GradUnfold(data: seq<byte>, w: nat, p: nat, x: nat, c: nat, left: int, up: int, upLeft: int)
    requires x < w && x <= p && c < 3 && 3 * p + 3 <= |data|
    requires left == (if x > 0 then GradValue(data, w, p - 1, x - 1, c) as int else 0)
    requires up == (if p - x >= w then GradValue(data, w, p - w, x, c) as int else 0)
    requires upLeft == (if x > 0 && p - x >= w then GradValue(data, w, p - w - 1, x - 1, c) as int else 0)
    ensures GradValue(data, w, p, x, c) as int == (data[3 * p + c] as int + Clamp(left + up - upLeft)) % 256
  {
  }

  /** `e` holds, at every pixel and channel, the residual of `img`. */
  ghost predicate Encodes(e: seq<byte>, img: seq<byte>, w: nat, h: nat)
    requires |e| == |img| == w * h * 3
  {
    forall p: nat, c: nat :: p < w * h && c < 3 ==> e[3 * p + c] == ResidualAt(img, w, h, p, c)
  }

  /** A row start `y * w` is at least `w` exactly when the row is not the first. */
  lemma {:induction false} RowStart(y: nat, w: nat)
    requires w > 0
    ensures y * w >= w <==> y >= 1
  {
    if y >= 1 {
      MulLe(1, y, w);
    }
  }

  /** Decoding residuals of `img` gives `img` back, pixel by pixel. */
  lemma {:induction false} GradientInverts(e: seq<byte>, img: seq<byte>, w: nat, h: nat, p: nat, y: nat, x: nat, c: nat)
    requires |e| == |img| == w * h * 3 && Encodes(e, img, w, h)
    requires p < w * h && p == y * w + x && x < w && c < 3
    ensures GradValue(e, w, p, x, c) == img[3 * p + c]
    decreases p
  {
    RowStart(y, w);
    if x > 0 {
      GradientInverts(e, img, w, h, p - 1, y, x - 1, c);
    }
    if p - x >= w {
      assert (y - 1) * w == y * w - w;
      GradientInverts(e, img, w, h, p - w, y - 1, x, c);
      if x > 0 {
        GradientInverts(e, img, w, h, p - w - 1, y - 1, x - 1, c);
      }
    }
    EncodedAt(e, img, w, h, p, y, x, c);
    InvertStep(e, img, w, p, x, c);
  }

  /** One step of `GradientInverts`: once the neighbours decode to the
      image, so does the pixel itself. */
  lemma {:induction false} InvertStep(e: seq<byte>, img: seq<byte>, w: nat, p: nat, x: nat, c: nat)
    requires |e| == |img| && 3 * p + 3 <= |e| && x < w && x <= p && c < 3
    requires e[3 * p + c] == Residual(img, w, p, x, c)
    requires x > 0 ==> GradValue(e, w, p - 1, x - 1, c) == img[3 * (p - 1) + c]
    requires p - x >= w ==> GradValue(e, w, p - w, x, c) == img[3 * (p - w) + c]
    requires x > 0 && p - x >= w ==> GradValue(e, w, p - w - 1, x - 1, c) == img[3 * (p - w - 1) + c]
    ensures GradValue(e, w, p, x, c) == img[3 * p + c]
  {
    var left := if x > 0 then img[3 * (p - 1) + c] as int else 0;
    var up := if p - x >= w then img[3 * (p - w) + c] as int else 0;
    var upLeft := if x > 0 && p - x >= w then img[3 * (p - w - 1) + c] as int else 0;
    GradUnfold(e, w, p, x, c, left, up, upLeft);
    ResidualUnfold(img, w, p, x, c, left, up, upLeft);
    ResidualInverse(GradValue(e, w, p, x, c), e[3 * p + c], img[3 * p + c], Clamp(left + up - upLeft));
  }

  /** One unfolding of `Residual`, with its neighbours named. */
  lemma {:induction false} ResidualUnfold(img: seq<byte>, w: nat, p: nat, x: nat, c: nat, left: int, up: int, upLeft: int)
    requires x < w && x <= p && c < 3 && 3 * p + 3 <= |img|
    requires left == (if x > 0 then img[3 * (p - 1) + c] as int else 0)
    requires up == (if p - x >= w then img[3 * (p - w) + c] as int else 0)
    requires upLeft == (if x > 0 && p - x >= w then img[3 * (p - w - 1) + c] as int else 0)
    ensures Residual(img, w, p, x, c) == ((img[3 * p + c] as int - Clamp(left + up - upLeft)) % 256) as byte
  {
  }

  lemma {:induction false} EncodedAt(e: seq<byte>, img: seq<byte>, w: nat, h: nat, p: nat, y: nat, x: nat, c: nat)
    requires |e| == |img| == w * h * 3 && Encodes(e, img, w, h)
    requires p < w * h && p == y * w + x && x < w && c < 3
    ensures e[3 * p + c] == Residual(img, w, p, x, c)
  {
    assert e[3 * p + c] == ResidualAt(img, w, h, p, c);
    ModUnique(p, w, y, x);
  }

  lemma {:induction false} EncodeEncodes(img: seq<byte>, w: nat, h: nat)
    requires |img| == w * h * 3
    ensures Encodes(GradientEncode(img, w, h), img, w, h)
  {
    forall p: nat, c: nat | p < w * h && c < 3
      ensures GradientEncode(img, w, h)[3 * p + c] == ResidualAt(img, w, h, p, c)
    {
      assert (3 * p + c) / 3 == p && (3 * p + c) % 3 == c;
    }
  }

  /** The gradient filter inverts the server's predictive encoding: every
      channel of every pixel comes back as it was. */
  lemma {:induction false} GradientRoundTrip(img: seq<byte>, w: nat, h: nat, p: nat, c: nat)
    requires |img| == w * h * 3 && p < w * h && c < 3
    ensures GradByte(GradientEncode(img, w, h), w, h, p, c) == img[3 * p + c]
  {
    EncodeEncodes(img, w, h);
    PixelIndex(p, w, h);
    GradientInverts(GradientEncode(img, w, h), img, w, h, p, p / w, p % w, c);
  }

  /** Along the first row the prediction is the left neighbour alone, and
      the first pixel of each later row is predicted from the pixel above. */
  lemma {:induction false} GradientEdges(data: seq<byte>, w: nat, p: nat, x: nat, c: nat)
    requires x < w && x <= p && c < 3 && 3 * p + 3 <= |data|
    ensures p < w && x > 0 ==>
              GradValue(data, w, p, x, c) as int == (data[3 * p + c] as int + GradValue(data, w, p - 1, x - 1, c) as int) % 256
    ensures p - x >= w && x == 0 ==>
              GradValue(data, w, p, x, c) as int == (data[3 * p + c] as int + GradValue(data, w, p - w, 0, c) as int) % 256
    ensures p == 0 ==> GradValue(data, w, p, x, c) == data[c]
  {
  }

  /** The pixels a basic rectangle draws for filter `f`. */
  function Pixels(f: byte, numColors: nat, palette: seq<byte>, data: seq<byte>, w: nat, h: nat): (r: seq<byte>)
    requires f <= 2 && |palette| == PaletteBytes && |data| == DataSize(f, numColors, w, h)
    ensures |r| == w * h * 4
  {
    if f == 0 then Rgbx(data, w * h)
    else if f == 2 then Gradient(data, w, h)
    else if numColors == 2 then Mono(palette, data, w, h)
    else PaletteRgbx(palette, data, w * h)
  }

  /** Uncompressed size of a basic rectangle's data for filter `f`. */
  function DataSize(f: byte, numColors: nat, w: nat, h: nat): nat
  {
    if f == 1 then RowSize(numColors, w) * h else w * h * 3
  }

  /* ---------- Basic compression ---------- */

  /** The data and drawing of a basic rectangle whose filter (and, for the
      palette filter, palette) is known. A zero size completes at once
      without touching the palette size. */
  function FilterBody(st: TightState, u: seq<byte>, sid: nat, x: int, y: int, w: nat, h: nat, codec: Codec): (o: Outcome<TightState>)
    requires WellFormed(st) && st.filter.Some? && st.filter.value <= 2 && sid < 4
    ensures WellFormed(o.state) && o.consumed <= |u| && o.state.ctl == st.ctl && o.state.filter == st.filter
  {
    var f := st.filter.value;
    var size := DataSize(f, st.numColors, w, h);
    if size == 0 then Outcome(st, 0, [], Ok(true))
    else
      var fb := FetchBlock(st, u, sid, size, codec);
      match fb.data
      case Err(e) => Outcome(fb.state, fb.consumed, [], Err(e))
      case Ok(None) => Outcome(fb.state, fb.consumed, [], Ok(false))
      case Ok(Some(d)) =>
        Outcome(if f == 1 then fb.state.(numColors := 0) else fb.state, fb.consumed,
                [BlitImage(x, y, w, h, Pixels(f, st.numColors, st.palette, d, w, h))], Ok(true))
  }

  /** The filter stage: the palette filter first reads its colour count
      and palette, both at once and only when both have arrived. */
  function FilterStep(st: TightState, u: seq<byte>, sid: nat, x: int, y: int, w: nat, h: nat, codec: Codec): (o: Outcome<TightState>)
    requires WellFormed(st) && st.filter.Some? && st.filter.value <= 2 && sid < 4
    ensures WellFormed(o.state) && o.consumed <= |u| && o.state.ctl == st.ctl && o.state.filter == st.filter
  {
    if st.filter.value == 1 && st.numColors == 0 then
      if !HasPalette(u) then Outcome(st, 0, [], Ok(false))
      else After(PaletteHeader(u), FilterBody(WithPalette(st, u), u[PaletteHeader(u)..], sid, x, y, w, h, codec))
    else FilterBody(st, u, sid, x, y, w, h, codec)
  }

  /** The colour count byte (one less than the number of colours) and the
      three bytes of every colour have arrived. */
  predicate HasPalette(u: seq<byte>)
  {
    |u| >= 1 && |u| >= PaletteHeader(u)
  }

  /** The size of the palette header at the start of `u`. */
  function PaletteHeader(u: seq<byte>): (k: nat)
    requires |u| >= 1
    ensures 4 <= k <= 769
  {
    1 + 3 * (u[0] as nat + 1)
  }

  /** The state once the palette header is read: the colour count, and
      the colours over the start of the palette buffer. */
  function WithPalette(st: TightState, u: seq<byte>): (r: TightState)
    requires WellFormed(st) && HasPalette(u)
    ensures WellFormed(r) && r.numColors == u[0] as nat + 1 && r.numColors >= 1
    ensures r.palette[..3 * r.numColors] == u[1..PaletteHeader(u)]
    ensures r == st.(numColors := r.numColors, palette := r.palette)
  {
    var n := u[0] as nat + 1;
    st.(numColors := n, palette := u[1..1 + 3 * n] + st.palette[3 * n..])
  }

  /** The palette filter's step once its header has arrived. */
  lemma {:induction false} PaletteStep(st: TightState, u: seq<byte>, sid: nat, x: int, y: int, w: nat, h: nat, codec: Codec)
    requires WellFormed(st) && st.filter == Some(1) && sid < 4 && st.numColors == 0 && HasPalette(u)
    ensures FilterStep(st, u, sid, x, y, w, h, codec) ==
            After(PaletteHeader(u), FilterBody(WithPalette(st, u), u[PaletteHeader(u)..], sid, x, y, w, h, codec))
  {
  }

  /** With the palette known, or for the other filters, the filter step is
      the data step. */
  lemma {:induction false} FilterStepKnown(st: TightState, u: seq<byte>, sid: nat, x: int, y: int, w: nat, h: nat, codec: Codec)
    requires WellFormed(st) && st.filter.Some? && st.filter.value <= 2 && sid < 4
    requires st.filter.value != 1 || st.numColors != 0
    ensures FilterStep(st, u, sid, x, y, w, h, codec) == FilterBody(st, u, sid, x, y, w, h, codec)
  {
  }

  /** Basic compression with mode `ctl` (0-7): TightPNG refuses it; the
      filter byte is read only when bit 4 is set and otherwise the copy
      filter applies; a filter above 2 is an error; the filter is forgotten
      only on completion. */
  function Basic(st: TightState, u: seq<byte>, ctl: nat, x: int, y: int, w: nat, h: nat, codec: Codec, png: bool): (o: Outcome<TightState>)
    requires WellFormed(st) && ctl < 8
    ensures WellFormed(o.state) && o.consumed <= |u| && o.state.ctl == st.ctl
    ensures o.result == Ok(true) ==> o.state.filter.None?
  {
    if png then Outcome(st, 0, [], Err("BasicCompression received in TightPNG rect"))
    else if |u| < FilterBytes(st, ctl) then Outcome(st, 0, [], Ok(false))
    else
      var k, f := FilterBytes(st, ctl), FilterOf(st, u, ctl);
      var st1 := st.(filter := Some(f));
      if f > 2 then Outcome(st1, k, [], Err("Illegal tight filter received"))
      else
        After(k, Finish(FilterStep(st1, u[k..], ctl % 4, x, y, w, h, codec)))
  }

  /** The filter byte is present only in modes 4-7 and read only once. */
  function FilterBytes(st: TightState, ctl: nat): (k: nat)
    ensures k <= 1
  {
    if st.filter.None? && ctl >= 4 then 1 else 0
  }

  /** The saved filter, else the explicit filter byte, else the copy
      filter. */
  function FilterOf(st: TightState, u: seq<byte>, ctl: nat): byte
    requires FilterBytes(st, ctl) <= |u|
  {
    if st.filter.Some? then st.filter.value else if ctl >= 4 then u[0] else 0
  }

  /** A completed basic rectangle forgets its filter. */
  function Finish(o: Outcome<TightState>): (r: Outcome<TightState>)
  {
    if o.result == Ok(true) then o.(state := o.state.(filter := None)) else o
  }

  /** Basic compression once its filter is known and legal. */
  lemma {:induction false} BasicKnown(st: TightState, u: seq<byte>, c: nat, x: int, y: int, w: nat, h: nat, codec: Codec)
    requires WellFormed(st) && c < 8 && FilterBytes(st, c) <= |u| && FilterOf(st, u, c) <= 2
    ensures var k := FilterBytes(st, c);
            Basic(st, u, c, x, y, w, h, codec, false) ==
            After(k, Finish(FilterStep(st.(filter := Some(FilterOf(st, u, c))), u[k..], c % 4, x, y, w, h, codec)))
  {
  }

  /* ---------- Modes ---------- */

  /** Fill: one 3-byte colour for the whole rectangle. */
  function Fill(st: TightState, u: seq<byte>, x: int, y: int, w: nat, h: nat): (o: Outcome<TightState>)
    ensures o.state == st && o.consumed <= |u|
  {
    if |u| < 3 then Outcome(st, 0, [], Ok(false))
    else Outcome(st, 3, [FillRect(x, y, w, h, u[..3])], Ok(true))
  }

  /** JPEG or PNG: one data block handed to the display to decode. */
  function Picture(st: TightState, u: seq<byte>, x: int, y: int, w: nat, h: nat, mime: string): (o: Outcome<TightState>)
    ensures o.consumed <= |u| && o.state == st.(len := o.state.len)
  {
    var rd := DataBlock(st.len, u);
    match rd.block
    case None => Outcome(st.(len := rd.len), rd.consumed, [], Ok(false))
    case Some(d) => Outcome(st.(len := 0), rd.consumed, [ImageRect(x, y, w, h, mime, d)], Ok(true))
  }

  /** The mode the saved control nibble selects; the nibble is forgotten
      only on completion. */
  function Mode(st: TightState, u: seq<byte>, x: int, y: int, w: nat, h: nat, codec: Codec, png: bool): (o: Outcome<TightState>)
    requires WellFormed(st) && st.ctl.Some?
    ensures WellFormed(o.state) && o.consumed <= |u|
    ensures o.result == Ok(true) ==> o.state.ctl.None?
    ensures o.result != Ok(true) ==> o.state.ctl == st.ctl
  {
    var c := st.ctl.value;
    var o :=
      if c == 8 then Fill(st, u, x, y, w, h)
      else if c == 9 then Picture(st, u, x, y, w, h, "image/jpeg")
      else if c == 10 then
        (if png then Picture(st, u, x, y, w, h, "image/png")
         else Outcome(st, 0, [], Err("PNG received in standard Tight rect")))
      else if c < 8 then Basic(st, u, c, x, y, w, h, codec, png)
      else Outcome(st, 0, [], Err("Illegal tight compression received"));
    if o.result == Ok(true) then o.(state := o.state.(ctl := None)) else o
  }

  /** One `decodeRect` call on the unread bytes `u`: the control byte is
      read only when none is saved. `png` selects TightPNG. */
  function Step(st: TightState, u: seq<byte>, x: int, y: int, w: nat, h: nat, codec: Codec, png: bool): (o: Outcome<TightState>)
    requires WellFormed(st)
    ensures WellFormed(o.state) && o.consumed <= |u|
    ensures o.result == Ok(true) ==> o.state.ctl.None?
    ensures o.result != Ok(true) && (st.ctl.Some? || |u| >= 1) ==> o.state.ctl.Some?
  {
    if st.ctl.None? then
      if |u| < 1 then Outcome(st, 0, [], Ok(false))
      else After(1, Mode(Control(st, u[0]), u[1..], x, y, w, h, codec, png))
    else Mode(st, u, x, y, w, h, codec, png)
  }

  /* ---------- Resumption ---------- */

  /** A filter's data delivered in two parts, with a false return in
      between, is decoded and drawn exactly as if it had come at once. */
  lemma {:induction false} FilterBodyResume(st: TightState, u1: seq<byte>, u2: seq<byte>, sid: nat, x: int, y: int, w: nat, h: nat, codec: Codec)
    requires WellFormed(st) && st.filter.Some? && st.filter.value <= 2 && sid < 4
    requires FilterBody(st, u1, sid, x, y, w, h, codec).result == Ok(false)
    ensures var o1 := FilterBody(st, u1, sid, x, y, w, h, codec);
            FilterBody(st, u1 + u2, sid, x, y, w, h, codec) ==
            Then(o1, FilterBody(o1.state, u1[o1.consumed..] + u2, sid, x, y, w, h, codec))
  {
    var size := DataSize(st.filter.value, st.numColors, w, h);
    FetchResume(st, u1, u2, sid, size, codec);
  }

  /** Bytes after a filter's data that was complete, or in error, are not
      read by it. */
  lemma {:induction false} FilterBodyExtend(st: TightState, u1: seq<byte>, u2: seq<byte>, sid: nat, x: int, y: int, w: nat, h: nat, codec: Codec)
    requires WellFormed(st) && st.filter.Some? && st.filter.value <= 2 && sid < 4
    requires FilterBody(st, u1, sid, x, y, w, h, codec).result != Ok(false)
    ensures FilterBody(st, u1 + u2, sid, x, y, w, h, codec) == FilterBody(st, u1, sid, x, y, w, h, codec)
  {
    var size := DataSize(st.filter.value, st.numColors, w, h);
    if size > 0 {
      FetchExtend(st, u1, u2, sid, size, codec);
    }
  }

  lemma {:induction false} FilterStepResume(st: TightState, u1: seq<byte>, u2: seq<byte>, sid: nat, x: int, y: int, w: nat, h: nat, codec: Codec)
    requires WellFormed(st) && st.filter.Some? && st.filter.value <= 2 && sid < 4
    requires FilterStep(st, u1, sid, x, y, w, h, codec).result == Ok(false)
    ensures var o1 := FilterStep(st, u1, sid, x, y, w, h, codec);
            FilterStep(st, u1 + u2, sid, x, y, w, h, codec) ==
            Then(o1, FilterStep(o1.state, u1[o1.consumed..] + u2, sid, x, y, w, h, codec))
  {
    var u := u1 + u2;
    if st.filter.value == 1 && st.numColors == 0 {
      if !HasPalette(u1) {
        assert u1[0..] == u1;
      } else {
        FilterStepResumePalette(st, u1, u2, sid, x, y, w, h, codec);
      }
    } else {
      FilterBodyResume(st, u1, u2, sid, x, y, w, h, codec);
      var o1 := FilterBody(st, u1, sid, x, y, w, h, codec);
      FilterStepKnown(o1.state, u1[o1.consumed..] + u2, sid, x, y, w, h, codec);
    }
  }

  /** `FilterStepResume` once the palette header is complete in `u1`. */
  lemma {:induction false} FilterStepResumePalette(st: TightState, u1: seq<byte>, u2: seq<byte>, sid: nat,
                                                   x: int, y: int, w: nat, h: nat, codec: Codec)
    requires WellFormed(st) && st.filter == Some(1) && st.numColors == 0 && sid < 4 && HasPalette(u1)
    requires FilterStep(st, u1, sid, x, y, w, h, codec).result == Ok(false)
    ensures var o1 := FilterStep(st, u1, sid, x, y, w, h, codec);
            FilterStep(st, u1 + u2, sid, x, y, w, h, codec) ==
            Then(o1, FilterStep(o1.state, u1[o1.consumed..] + u2, sid, x, y, w, h, codec))
  {
    var u := u1 + u2;
    var k := PaletteHeader(u1);
    assert u[..k] == u1[..k];
    assert PaletteHeader(u) == k && u[1..k] == u1[1..k];
    var st' := WithPalette(st, u1);
    assert WithPalette(st, u) == st';
    assert u[k..] == u1[k..] + u2;
    PaletteStep(st, u1, sid, x, y, w, h, codec);
    PaletteStep(st, u, sid, x, y, w, h, codec);
    FilterBodyResume(st', u1[k..], u2, sid, x, y, w, h, codec);
    var b1 := FilterBody(st', u1[k..], sid, x, y, w, h, codec);
    var o1 := FilterStep(st, u1, sid, x, y, w, h, codec);
    assert u1[k..][b1.consumed..] == u1[o1.consumed..];
    var rest := u1[o1.consumed..] + u2;
    FilterStepKnown(b1.state, rest, sid, x, y, w, h, codec);
    AfterThen(k, b1, FilterBody(b1.state, rest, sid, x, y, w, h, codec), o1,
              FilterStep(st, u, sid, x, y, w, h, codec), FilterStep(o1.state, rest, sid, x, y, w, h, codec));
  }

  /** Skipping `k` bytes before two steps is skipping them before the first. */
  lemma {:induction false} AfterThen(k: nat, b1: Outcome<TightState>, b2: Outcome<TightState>,
                                     o1: Outcome<TightState>, whole: Outcome<TightState>, o2: Outcome<TightState>)
    requires o1 == After(k, b1) && whole == After(k, Then(b1, b2)) && o2 == b2
    ensures whole == Then(o1, o2)
  {
  }

  lemma {:induction false} FilterStepExtend(st: TightState, u1: seq<byte>, u2: seq<byte>, sid: nat, x: int, y: int, w: nat, h: nat, codec: Codec)
    requires WellFormed(st) && st.filter.Some? && st.filter.value <= 2 && sid < 4
    requires FilterStep(st, u1, sid, x, y, w, h, codec).result != Ok(false)
    ensures FilterStep(st, u1 + u2, sid, x, y, w, h, codec) == FilterStep(st, u1, sid, x, y, w, h, codec)
  {
    var u := u1 + u2;
    if st.filter.value == 1 && st.numColors == 0 {
      var k := PaletteHeader(u1);
      assert u[..k] == u1[..k];
      assert PaletteHeader(u) == k && u[1..k] == u1[1..k];
      assert WithPalette(st, u) == WithPalette(st, u1);
      assert u[k..] == u1[k..] + u2;
      FilterBodyExtend(WithPalette(st, u1), u1[k..], u2, sid, x, y, w, h, codec);
    } else {
      FilterBodyExtend(st, u1, u2, sid, x, y, w, h, codec);
    }
  }

  lemma {:induction false} BasicResume(st: TightState, u1: seq<byte>, u2: seq<byte>, c: nat, x: int, y: int, w: nat, h: nat, codec: Codec, png: bool)
    requires WellFormed(st) && c < 8 && Basic(st, u1, c, x, y, w, h, codec, png).result == Ok(false)
    ensures var o1 := Basic(st, u1, c, x, y, w, h, codec, png);
            Basic(st, u1 + u2, c, x, y, w, h, codec, png) ==
            Then(o1, Basic(o1.state, u1[o1.consumed..] + u2, c, x, y, w, h, codec, png))
  {
    if |u1| < FilterBytes(st, c) {
      assert u1[0..] == u1;
    } else {
      BasicResumeKnown(st, u1, u2, c, x, y, w, h, codec);
    }
  }

  /** `BasicResume` once the filter is known and legal. */
  lemma {:induction false} BasicResumeKnown(st: TightState, u1: seq<byte>, u2: seq<byte>, c: nat, x: int, y: int, w: nat, h: nat, codec: Codec)
    requires WellFormed(st) && c < 8 && FilterBytes(st, c) <= |u1| && FilterOf(st, u1, c) <= 2
    requires Basic(st, u1, c, x, y, w, h, codec, false).result == Ok(false)
    ensures var o1 := Basic(st, u1, c, x, y, w, h, codec, false);
            Basic(st, u1 + u2, c, x, y, w, h, codec, false) ==
            Then(o1, Basic(o1.state, u1[o1.consumed..] + u2, c, x, y, w, h, codec, false))
  {
    var k, f := FilterBytes(st, c), FilterOf(st, u1, c);
    var st1 := st.(filter := Some(f));
    var a := FilterStep(st1, u1[k..], c % 4, x, y, w, h, codec);
    var b := FilterStep(a.state, u1[k..][a.consumed..] + u2, c % 4, x, y, w, h, codec);
    var o1 := Basic(st, u1, c, x, y, w, h, codec, false);
    BasicKnown(st, u1, c, x, y, w, h, codec);
    BasicOfWhole(st, u1, u2, c, x, y, w, h, codec);
    FilterStepResume(st1, u1[k..], u2, c % 4, x, y, w, h, codec);
    BasicRest(st, u1, u2, c, x, y, w, h, codec);
    FinishThen(k, a, b, FilterStep(st1, u1[k..] + u2, c % 4, x, y, w, h, codec), o1, Basic(st, u1 + u2, c, x, y, w, h, codec, false),
               Basic(o1.state, u1[o1.consumed..] + u2, c, x, y, w, h, codec, false));
  }

  /** The resumed call of a basic rectangle takes up its filter's step. */
  lemma {:induction false} BasicRest(st: TightState, u1: seq<byte>, u2: seq<byte>, c: nat, x: int, y: int, w: nat, h: nat, codec: Codec)
    requires WellFormed(st) && c < 8 && FilterBytes(st, c) <= |u1| && FilterOf(st, u1, c) <= 2
    requires Basic(st, u1, c, x, y, w, h, codec, false).result == Ok(false)
    ensures var k := FilterBytes(st, c);
            var a := FilterStep(st.(filter := Some(FilterOf(st, u1, c))), u1[k..], c % 4, x, y, w, h, codec);
            var b := FilterStep(a.state, u1[k..][a.consumed..] + u2, c % 4, x, y, w, h, codec);
            var o1 := Basic(st, u1, c, x, y, w, h, codec, false);
            Basic(o1.state, u1[o1.consumed..] + u2, c, x, y, w, h, codec, false) == After(0, Finish(b))
  {
    var k, f := FilterBytes(st, c), FilterOf(st, u1, c);
    var a := FilterStep(st.(filter := Some(f)), u1[k..], c % 4, x, y, w, h, codec);
    BasicKnown(st, u1, c, x, y, w, h, codec);
    ResumeSlices(u1, u2, k, a.consumed);
    var rest := u1[k + a.consumed..] + u2;
    assert FilterBytes(a.state, c) == 0 && FilterOf(a.state, rest, c) == f && a.state.(filter := Some(f)) == a.state;
    BasicKnown(a.state, rest, c, x, y, w, h, codec);
  }

  /** The filter byte of the whole data is the one of its first part. */
  lemma {:induction false} BasicOfWhole(st: TightState, u1: seq<byte>, u2: seq<byte>, c: nat, x: int, y: int, w: nat, h: nat, codec: Codec)
    requires WellFormed(st) && c < 8 && FilterBytes(st, c) <= |u1| && FilterOf(st, u1, c) <= 2
    ensures var k := FilterBytes(st, c);
            Basic(st, u1 + u2, c, x, y, w, h, codec, false) ==
            After(k, Finish(FilterStep(st.(filter := Some(FilterOf(st, u1, c))), u1[k..] + u2, c % 4, x, y, w, h, codec)))
  {
    var k := FilterBytes(st, c);
    ResumeSlices(u1, u2, k, 0);
    assert FilterOf(st, u1 + u2, c) == FilterOf(st, u1, c);
    BasicKnown(st, u1 + u2, c, x, y, w, h, codec);
  }

  /** The slices a resumption takes of the data delivered in two parts. */
  lemma {:induction false} ResumeSlices(u1: seq<byte>, u2: seq<byte>, k: nat, n: nat)
    requires k + n <= |u1|
    ensures (u1 + u2)[k..] == u1[k..] + u2 && u1[k..][n..] == u1[k + n..]
    ensures (u1[k + n..] + u2)[0..] == u1[k + n..] + u2
    ensures k < |u1| ==> (u1 + u2)[k] == u1[k]
  {
  }

  /** Skipping `k` bytes before two steps, the first incomplete, and
      finishing them is finishing each. */
  lemma {:induction false} FinishThen(k: nat, a: Outcome<TightState>, b: Outcome<TightState>, ab: Outcome<TightState>,
                                      o1: Outcome<TightState>, whole: Outcome<TightState>, o2: Outcome<TightState>)
    requires a.result == Ok(false) && ab == Then(a, b)
    requires o1 == After(k, Finish(a)) && whole == After(k, Finish(ab)) && o2 == After(0, Finish(b))
    ensures whole == Then(o1, o2)
  {
  }

  lemma {:induction false} BasicExtend(st: TightState, u1: seq<byte>, u2: seq<byte>, c: nat, x: int, y: int, w: nat, h: nat, codec: Codec, png: bool)
    requires WellFormed(st) && c < 8 && Basic(st, u1, c, x, y, w, h, codec, png).result != Ok(false)
    ensures Basic(st, u1 + u2, c, x, y, w, h, codec, png) == Basic(st, u1, c, x, y, w, h, codec, png)
  {
    if !png {
      var u := u1 + u2;
      var k, f := FilterBytes(st, c), FilterOf(st, u1, c);
      assert FilterOf(st, u, c) == f;
      assert u[k..] == u1[k..] + u2;
      if f <= 2 {
        FilterStepExtend(st.(filter := Some(f)), u1[k..], u2, c % 4, x, y, w, h, codec);
      }
    }
  }

  lemma {:induction false} PictureResume(st: TightState, u1: seq<byte>, u2: seq<byte>, x: int, y: int, w: nat, h: nat, mime: string)
    requires Picture(st, u1, x, y, w, h, mime).result == Ok(false)
    ensures var o1 := Picture(st, u1, x, y, w, h, mime);
            Picture(st, u1 + u2, x, y, w, h, mime) == Then(o1, Picture(o1.state, u1[o1.consumed..] + u2, x, y, w, h, mime))
  {
    DataBlockResume(st.len, u1, u2);
  }

  lemma {:induction false} PictureExtend(st: TightState, u1: seq<byte>, u2: seq<byte>, x: int, y: int, w: nat, h: nat, mime: string)
    requires Picture(st, u1, x, y, w, h, mime).result != Ok(false)
    ensures Picture(st, u1 + u2, x, y, w, h, mime) == Picture(st, u1, x, y, w, h, mime)
  {
    DataBlockExtend(st.len, u1, u2);
  }

  lemma {:induction false} FillResumeExtend(st: TightState, u1: seq<byte>, u2: seq<byte>, x: int, y: int, w: nat, h: nat)
    ensures var o1 := Fill(st, u1, x, y, w, h);
            o1.result == Ok(false) ==> Fill(st, u1 + u2, x, y, w, h) == Then(o1, Fill(o1.state, u1[o1.consumed..] + u2, x, y, w, h))
    ensures Fill(st, u1, x, y, w, h).result != Ok(false) ==> Fill(st, u1 + u2, x, y, w, h) == Fill(st, u1, x, y, w, h)
  {
    if |u1| >= 3 {
      assert (u1 + u2)[..3] == u1[..3];
    } else {
      assert u1[0..] == u1;
    }
  }

  lemma {:induction false} ModeResume(st: TightState, u1: seq<byte>, u2: seq<byte>, x: int, y: int, w: nat, h: nat, codec: Codec, png: bool)
    requires WellFormed(st) && st.ctl.Some? && Mode(st, u1, x, y, w, h, codec, png).result == Ok(false)
    ensures var o1 := Mode(st, u1, x, y, w, h, codec, png);
            Mode(st, u1 + u2, x, y, w, h, codec, png) == Then(o1, Mode(o1.state, u1[o1.consumed..] + u2, x, y, w, h, codec, png))
  {
    var c := st.ctl.value;
    if c == 8 {
      FillResumeExtend(st, u1, u2, x, y, w, h);
    } else if c == 9 {
      PictureResume(st, u1, u2, x, y, w, h, "image/jpeg");
    } else if c == 10 {
      PictureResume(st, u1, u2, x, y, w, h, "image/png");
    } else {
      BasicResume(st, u1, u2, c, x, y, w, h, codec, png);
    }
  }

  lemma {:induction false} ModeExtend(st: TightState, u1: seq<byte>, u2: seq<byte>, x: int, y: int, w: nat, h: nat, codec: Codec, png: bool)
    requires WellFormed(st) && st.ctl.Some? && Mode(st, u1, x, y, w, h, codec, png).result != Ok(false)
    ensures Mode(st, u1 + u2, x, y, w, h, codec, png) == Mode(st, u1, x, y, w, h, codec, png)
  {
    var c := st.ctl.value;
    if c == 8 {
      FillResumeExtend(st, u1, u2, x, y, w, h);
    } else if c == 9 {
      PictureExtend(st, u1, u2, x, y, w, h, "image/jpeg");
    } else if c == 10 && png {
      PictureExtend(st, u1, u2, x, y, w, h, "image/png");
    } else if c < 8 {
      BasicExtend(st, u1, u2, c, x, y, w, h, codec, png);
    }
  }

  /** A rectangle delivered in two parts, with a false return in between,
      consumes, draws and leaves the decoder exactly as one call on all
      its bytes. */
  lemma {:induction false} StepResume(st: TightState, u1: seq<byte>, u2: seq<byte>, x: int, y: int, w: nat, h: nat, codec: Codec, png: bool)
    requires WellFormed(st) && Step(st, u1, x, y, w, h, codec, png).result == Ok(false)
    ensures var o1 := Step(st, u1, x, y, w, h, codec, png);
            Step(st, u1 + u2, x, y, w, h, codec, png) == Then(o1, Step(o1.state, u1[o1.consumed..] + u2, x, y, w, h, codec, png))
  {
    if st.ctl.None? {
      if |u1| < 1 {
        assert u1[0..] == u1;
      } else {
        var u := u1 + u2;
        var s1 := Control(st, u1[0]);
        assert u[0] == u1[0] && u[1..] == u1[1..] + u2;
        ModeResume(s1, u1[1..], u2, x, y, w, h, codec, png);
        var o1 := Mode(s1, u1[1..], x, y, w, h, codec, png);
        assert u1[1..][o1.consumed..] == u1[1 + o1.consumed..];
      }
    } else {
      ModeResume(st, u1, u2, x, y, w, h, codec, png);
    }
  }

  /** Bytes after a rectangle that completed or failed are not read by
      it. */
  lemma {:induction false} StepExtend(st: TightState, u1: seq<byte>, u2: seq<byte>, x: int, y: int, w: nat, h: nat, codec: Codec, png: bool)
    requires WellFormed(st) && Step(st, u1, x, y, w, h, codec, png).result != Ok(false)
    ensures Step(st, u1 + u2, x, y, w, h, codec, png) == Step(st, u1, x, y, w, h, codec, png)
  {
    if st.ctl.None? {
      var u := u1 + u2;
      assert u[0] == u1[0] && u[1..] == u1[1..] + u2;
      ModeExtend(Control(st, u1[0]), u1[1..], u2, x, y, w, h, codec, png);
    } else {
      ModeExtend(st, u1, u2, x, y, w, h, codec, png);
    }
  }

  /* ---------- Properties of the modes and filters ---------- */

  /** The mode nibble in force: the saved one, else the one the next byte
      carries. */
  function PendingMode(st: TightState, u: seq<byte>): (m: Option<nat>)
    ensures m.Some? && st.ctl.None? ==> m.value < 16
  {
    if st.ctl.Some? then st.ctl else if |u| >= 1 then Some(u[0] as nat / 16) else None
  }

  /** Modes 11-15, PNG in plain Tight and basic compression in TightPNG
      throw without consuming anything after the control byte; fill takes
      three bytes; JPEG and TightPNG's PNG hand one data block to the
      display. */
  lemma {:induction false} ModeDispatch(st: TightState, u: seq<byte>, x: int, y: int, w: nat, h: nat, codec: Codec, png: bool)
    requires WellFormed(st) && st.ctl.Some?
    ensures var c, o := st.ctl.value, Mode(st, u, x, y, w, h, codec, png);
            (c > 10 ==> o == Outcome(st, 0, [], Err("Illegal tight compression received"))) &&
            (c == 10 && !png ==> o == Outcome(st, 0, [], Err("PNG received in standard Tight rect"))) &&
            (c < 8 && png ==> o == Outcome(st, 0, [], Err("BasicCompression received in TightPNG rect"))) &&
            (c == 8 ==> o == if |u| < 3 then Outcome(st, 0, [], Ok(false))
                             else Outcome(st.(ctl := None), 3, [FillRect(x, y, w, h, u[..3])], Ok(true))) &&
            (c == 9 || (c == 10 && png) ==>
               var rd, mime := DataBlock(st.len, u), if c == 9 then "image/jpeg" else "image/png";
               o.consumed == rd.consumed && o.state.len == rd.len &&
               (o.result == Ok(true) <==> rd.block.Some?) &&
               (o.result == Ok(false) <==> rd.block.None?) &&
               o.calls == (if rd.block.Some? then [ImageRect(x, y, w, h, mime, rd.block.value)] else []))
  {
  }

  /** TightPNG handles the control byte, the stream resets, fill and JPEG
      exactly as Tight does. */
  lemma {:induction false} PngInherits(st: TightState, u: seq<byte>, x: int, y: int, w: nat, h: nat, codec: Codec)
    requires WellFormed(st)
    requires PendingMode(st, u).None? || PendingMode(st, u).value == 8 || PendingMode(st, u).value == 9 ||
             PendingMode(st, u).value > 10
    ensures Step(st, u, x, y, w, h, codec, true) == Step(st, u, x, y, w, h, codec, false)
  {
  }

  /** The palette header is consumed all at once and only when every colour
      has arrived: the count is its first byte plus one and the colours
      fill the start of the palette buffer. */
  lemma {:induction false} PaletteHeaderAtomic(st: TightState, u: seq<byte>, sid: nat, x: int, y: int, w: nat, h: nat, codec: Codec)
    requires WellFormed(st) && st.filter == Some(1) && st.numColors == 0 && sid < 4
    ensures !HasPalette(u) ==> FilterStep(st, u, sid, x, y, w, h, codec) == Outcome(st, 0, [], Ok(false))
    ensures HasPalette(u) ==>
              var o, n := FilterStep(st, u, sid, x, y, w, h, codec), u[0] as nat + 1;
              o.consumed >= 1 + 3 * n &&
              o.consumed == 1 + 3 * n + FilterBody(WithPalette(st, u), u[1 + 3 * n..], sid, x, y, w, h, codec).consumed &&
              WithPalette(st, u).numColors == n && WithPalette(st, u).palette[..3 * n] == u[1..1 + 3 * n]
  {
    if HasPalette(u) {
      PaletteStep(st, u, sid, x, y, w, h, codec);
    }
  }

  /** A palette rectangle that draws forgets its colour count, so the
      next palette rectangle reads a new palette; one with no pixels
      returns at once and keeps the count, so the next palette rectangle
      reads no palette header. */
  lemma {:induction false} PaletteColours(st: TightState, u: seq<byte>, sid: nat, x: int, y: int, w: nat, h: nat, codec: Codec)
    requires WellFormed(st) && st.filter == Some(1) && st.numColors > 0 && sid < 4
    ensures var o := FilterBody(st, u, sid, x, y, w, h, codec);
            (w * h == 0 ==> o == Outcome(st, 0, [], Ok(true))) &&
            (w * h > 0 && o.result == Ok(true) ==> o.state.numColors == 0 && |o.calls| == 1)
    ensures w * h == 0 ==> FilterStep(st, u, sid, x, y, w, h, codec) == FilterBody(st, u, sid, x, y, w, h, codec)
  {
    if w * h == 0 {
      assert w == 0 || h == 0;
      assert RowSize(st.numColors, w) * h == 0;
    } else {
      RowSizeBounds(st.numColors, w);
      assert RowSize(st.numColors, w) > 0;
      MulPos(RowSize(st.numColors, w), h);
    }
  }

  lemma {:induction false} MulPos(a: nat, b: nat)
    requires a > 0 && b > 0
    ensures a * b > 0
  {
  }

  /** A row of palette data holds one bit per pixel, padded to a whole
      byte, for at most two colours, and one byte per pixel otherwise. */
  lemma {:induction false} RowSizeBounds(n: nat, w: nat)
    ensures n <= 2 ==> w <= 8 * RowSize(n, w) < w + 8
    ensures n > 2 ==> RowSize(n, w) == w
  {
  }

  /** A zero-size filter completes at once without reading; any other size
      consumes exactly what fetching the data consumes. */
  lemma {:induction false} ZeroSizeNoRead(st: TightState, u: seq<byte>, sid: nat, x: int, y: int, w: nat, h: nat, codec: Codec)
    requires WellFormed(st) && st.filter.Some? && st.filter.value <= 2 && sid < 4
    ensures var size, o := DataSize(st.filter.value, st.numColors, w, h), FilterBody(st, u, sid, x, y, w, h, codec);
            (size == 0 ==> o == Outcome(st, 0, [], Ok(true))) &&
            (size > 0 ==> o.consumed == FetchBlock(st, u, sid, size, codec).consumed &&
                          o.state.len == FetchBlock(st, u, sid, size, codec).state.len &&
                          o.state.zlibs == FetchBlock(st, u, sid, size, codec).state.zlibs)
  {
  }

  /** A length of 10000 takes two bytes: 0x90 (16 with the top bit set)
      and 0x4E (78 * 128). */
  lemma {:induction false} LengthExample(rest: byte)
    ensures CompactLength([0x90, 0x4E, rest]) == (10000, 2)
    ensures EncodeLength(10000) == [0x90, 0x4E]
  {
  }

  /** A fresh decoder given a fill rectangle with stream 0 reset draws one
      red fill and consumes the control byte and the colour. */
  lemma {:induction false} FillExample(st: TightState, codec: Codec, png: bool)
    requires WellFormed(st) && st.ctl.None?
    ensures var o := Step(st, [0x81, 255, 0, 0], 5, 6, 7, 8, codec, png);
            o.consumed == 4 && o.calls == [FillRect(5, 6, 7, 8, [255, 0, 0])] && o.result == Ok(true) &&
            o.state.ctl.None? && o.state.zlibs[0] == ZState([], []) && o.state.zlibs[1..] == st.zlibs[1..]
  {
    var u: seq<byte> := [0x81, 255, 0, 0];
    assert u[1..][..3] == [255, 0, 0];
    var z := ResetStreams(st.zlibs, 0x81);
    assert z[1] == st.zlibs[1] && z[2] == st.zlibs[2] && z[3] == st.zlibs[3];
  }

  /* ---------- Pixel-by-pixel views, for the conversion loops ---------- */

  /** Byte `c` of pixel `p` of the copy filter's output. */
  lemma {:induction false} RgbxAt(data: seq<byte>, n: nat, p: nat, c: nat)
    requires |data| == n * 3 && p < n && c < 4
    ensures Rgbx(data, n)[4 * p + c] == if c == 3 then 255 else data[3 * p + c]
  {
    Quad(p, c);
  }

  /** Byte `c` of pixel `p` of the 8-bit palette path's output. */
  lemma {:induction false} PaletteAt(palette: seq<byte>, data: seq<byte>, n: nat, p: nat, c: nat)
    requires |palette| == PaletteBytes && p < n && c < 4
    ensures PaletteRgbx(palette, data, n)[4 * p + c] ==
            if c == 3 then 255 else if p < |data| then palette[3 * data[p] as nat + c] else 0
  {
    Quad(p, c);
  }

  /** The pixel in row `y`, column `x` of a two-colour rectangle, as
      `_monoRect` addresses it: bit `7 - x % 8` of byte `x / 8` of the row
      picks the palette entry. */
  lemma {:induction false} MonoPixelAt(palette: seq<byte>, data: seq<byte>, w: nat, h: nat, p: nat, y: nat, x: nat,
                                       rs: nat, bi: nat, m: seq<byte>)
    requires |palette| == PaletteBytes && |data| == RowSize(2, w) * h
    requires p < w * h && p == y * w + x && x < w
    requires rs == RowSize(2, w) && bi == y * rs + x / 8 && m == Mono(palette, data, w, h)
    ensures bi < |data| && 4 * p + 4 <= |m|
    ensures var sp := (data[bi] as nat / Pow2(7 - x % 8)) % 2 * 3;
            m[4 * p..4 * p + 4] == [palette[sp], palette[sp + 1], palette[sp + 2], 255]
  {
    MonoPixelBit(data, w, h, p, y, x, rs, bi);
    MonoAt(palette, data, w, h, p, 0);
    MonoAt(palette, data, w, h, p, 1);
    MonoAt(palette, data, w, h, p, 2);
    MonoAt(palette, data, w, h, p, 3);
  }

  /** Pixel `p` in row `y`, column `x` takes its bit from byte `bi`. */
  lemma {:induction false} MonoPixelBit(data: seq<byte>, w: nat, h: nat, p: nat, y: nat, x: nat, rs: nat, bi: nat)
    requires |data| == RowSize(2, w) * h && p < w * h && p == y * w + x && x < w
    requires rs == RowSize(2, w) && bi == y * rs + x / 8
    ensures w > 0 && p / w == y && p % w == x && y < h && bi < |data|
    ensures MonoBit(data, w, h, y, x) == (data[bi] as nat / Pow2(7 - x % 8)) % 2
  {
    PixelIndex(p, w, h);
    ModUnique(p, w, y, x);
    RowIndex(y, x / 8, RowSize(2, w), h);
  }

  /** Byte `c` of pixel `p` of a gradient rectangle, alpha included. */
  function GradPixel(data: seq<byte>, w: nat, h: nat, p: nat, c: nat): byte
    requires |data| == w * h * 3 && p < w * h && c < 4
  {
    if c == 3 then 255 else GradByte(data, w, h, p, c)
  }

  /** A buffer holding every pixel of a gradient rectangle is that rectangle. */
  lemma {:induction false} GradientFrom(r: seq<byte>, data: seq<byte>, w: nat, h: nat)
    requires |data| == w * h * 3 && |r| == w * h * 4
    requires forall q: nat, c: nat :: q < w * h && c < 4 ==> r[4 * q + c] == GradPixel(data, w, h, q, c)
    ensures r == Gradient(data, w, h)
  {
    forall k | 0 <= k < w * h * 4
      ensures r[k] == Gradient(data, w, h)[k]
    {
      var q, c := k / 4, k % 4;
      assert k == 4 * q + c;
      assert r[4 * q + c] == GradPixel(data, w, h, q, c);
    }
  }

  /** Byte `c` of pixel `p`, in column `x`, of a gradient rectangle, from
      its decoded left, upper and upper-left neighbours. */
  lemma {:induction false} GradientAt(data: seq<byte>, w: nat, h: nat, p: nat, x: nat, c: nat)
    requires |data| == w * h * 3 && 0 < w && p < w * h && c < 3
    requires x == p % w && x <= p && (x > 0 && p >= w ==> p > w)
    ensures var left := if x > 0 then GradPixel(data, w, h, p - 1, c) as int else 0;
            var up := if p >= w then GradPixel(data, w, h, p - w, c) as int else 0;
            var upLeft := if x > 0 && p >= w then GradPixel(data, w, h, p - w - 1, c) as int else 0;
            GradPixel(data, w, h, p, c) as int == (data[3 * p + c] as int + Clamp(left + up - upLeft)) % 256
  {
    ModNeighbours(p, w);
    var left := if x > 0 then GradPixel(data, w, h, p - 1, c) as int else 0;
    var up := if p >= w then GradPixel(data, w, h, p - w, c) as int else 0;
    var upLeft := if x > 0 && p >= w then GradPixel(data, w, h, p - w - 1, c) as int else 0;
    GradUnfold(data, w, p, x, c, left, up, upLeft);
  }

  /** The columns of the left, upper and upper-left neighbours of pixel
      `p`, and when it has a row above it. */
  lemma {:induction false} ModNeighbours(p: nat, w: nat)
    requires w > 0
    ensures p % w <= p && (p % w > 0 && p >= w ==> p > w)
    ensures p % w > 0 ==> (p - 1) % w == p % w - 1
    ensures p >= w ==> (p - w) % w == p % w
    ensures p % w > 0 && p >= w ==> (p - w - 1) % w == p % w - 1
    ensures p - p % w >= w <==> p >= w
  {
    var q, r := p / w, p % w;
    assert p == w * q + r;
    if r > 0 {
      ModUnique(p - 1, w, q, r - 1);
    }
    if p >= w {
      RowAbove(p, w, q, r);
    }
  }

  lemma {:induction false} RowAbove(p: nat, w: nat, q: int, r: int)
    requires w > 0 && p == w * q + r && 0 <= r < w && p >= w
    ensures q >= 1 && p - r >= w && (r > 0 ==> p > w)
    ensures (p - w) % w == r && (r > 0 ==> (p - w - 1) % w == r - 1)
  {
    if q <= 0 {
      MulLe(q, 0, w);
    }
    MulAtLeast(w, q);
    assert w * (q - 1) == w * q - w;
    ModUnique(p - w, w, q - 1, r);
    if r > 0 {
      ModUnique(p - w - 1, w, q - 1, r - 1);
    }
  }

  /** Row `y + 1` starts `w` pixels after row `y`. */
  lemma {:induction false} NextRow(y: nat, w: nat)
    ensures (y + 1) * w == y * w + w
  {
  }

  /** The copy filter's conversion loop. */
  method CopyPixels(data: seq<byte>, n: nat) returns (r: seq<byte>)
    requires |data| == n * 3
    ensures r == Rgbx(data, n)
  {
    ghost var want := Rgbx(data, n);
    var rgbx := new byte[n * 4](_ => 0);
    var p, i, j := 0, 0, 0;
    while p < n
      invariant p <= n && i == 4 * p && j == 3 * p
      invariant rgbx[..i] == want[..i]
    {
      RgbxPixel(data, n, p);
      var q := data[j..j + 3] + [255];
      ghost var before := rgbx[..];
      PutPixel(rgbx, p, q);
      PixelWritten(want, before, rgbx[..], p, q);
      p, i, j := p + 1, i + 4, j + 3;
    }
    assert rgbx[..] == rgbx[..i];
    r := rgbx[..];
  }

  /** The gradient filter's conversion loop, one pixel at a time in row
      order; the neighbours are read back from the pixels already written. */
  method GradientPixels(data: seq<byte>, w: nat, h: nat) returns (r: seq<byte>)
    requires |data| == w * h * 3
    ensures r == Gradient(data, w, h)
  {
    var n := w * h;
    var rgbx := new byte[n * 4](_ => 0);
    var p := 0;
    while p < n
      invariant p <= n
      invariant forall q: nat, c: nat :: q < p && c < 4 ==> rgbx[4 * q + c] == GradPixel(data, w, h, q, c)
    {
      GradientPixelAt(rgbx, data, w, h, p);
      p := p + 1;
    }
    GradientFrom(rgbx[..], data, w, h);
    r := rgbx[..];
  }

  /** The three channels and the alpha byte of pixel `p`. */
  method GradientPixelAt(rgbx: array<byte>, data: seq<byte>, w: nat, h: nat, p: nat)
    requires rgbx.Length == w * h * 4 && |data| == w * h * 3 && p < w * h
    requires forall q: nat, c: nat :: q < p && c < 4 ==> rgbx[4 * q + c] == GradPixel(data, w, h, q, c)
    modifies rgbx
    ensures forall q: nat, c: nat :: q < p + 1 && c < 4 ==> rgbx[4 * q + c] == GradPixel(data, w, h, q, c)
  {
    PixelIndex(p, w, h);
    ModNeighbours(p, w);
    var x := p % w;
    var c := 0;
    while c < 3
      invariant c <= 3
      invariant forall q: nat, c': nat :: q < p && c' < 4 ==> rgbx[4 * q + c'] == GradPixel(data, w, h, q, c')
      invariant forall c': nat :: c' < c ==> rgbx[4 * p + c'] == GradPixel(data, w, h, p, c')
    {
      GradientAt(data, w, h, p, x, c);
      var left := if x > 0 then rgbx[4 * (p - 1) + c] as int else 0;
      var up := if p >= w then rgbx[4 * (p - w) + c] as int else 0;
      var upLeft := if x > 0 && p >= w then rgbx[4 * (p - w - 1) + c] as int else 0;
      rgbx[4 * p + c] := ((data[3 * p + c] as int + Clamp(left + up - upLeft)) % 256) as byte;
      c := c + 1;
    }
    rgbx[4 * p + 3] := 255;
  }

  /** The two-colour conversion loop of `_monoRect`, one pixel at a time
      in row order, into `dest`. */
  method MonoInto(dest: array<byte>, palette: array<byte>, data: seq<byte>, width: nat, height: nat)
    requires dest != palette && palette.Length == PaletteBytes && dest.Length >= width * height * 4
    requires |data| == RowSize(2, width) * height
    modifies dest
    ensures dest[..width * height * 4] == Mono(palette[..], data, width, height)
  {
    ghost var pal := palette[..];
    ghost var want := Mono(pal, data, width, height);
    var w := (width + 7) / 8;
    assert w == RowSize(2, width);
    var p, py, px := 0, 0, 0;
    while p < width * height
      invariant p <= width * height && p == py * width + px && (p < width * height ==> px < width)
      invariant dest[..4 * p] == want[..4 * p]
    {
      var bi := py * w + px / 8;
      MonoPixelAt(pal, data, width, height, p, py, px, w, bi, want);
      var sp := (data[bi] as nat / Pow2(7 - px % 8)) % 2 * 3;
      var q := [palette[sp], palette[sp + 1], palette[sp + 2], 255];
      ghost var before := dest[..];
      PutPixel(dest, p, q);
      PixelWritten(want, before, dest[..], p, q);
      px := px + 1;
      if px == width {
        NextRow(py, width);
        px, py := 0, py + 1;
      }
      p := p + 1;
    }
    assert dest[..width * height * 4] == want;
  }

  /** The 8-bit palette conversion loop of `_paletteRect`, into `dest`. */
  method PaletteInto(dest: array<byte>, palette: array<byte>, data: seq<byte>, n: nat)
    requires dest != palette && palette.Length == PaletteBytes && dest.Length >= n * 4
    modifies dest
    ensures dest[..n * 4] == PaletteRgbx(palette[..], data, n)
  {
    ghost var want := PaletteRgbx(palette[..], data, n);
    var i, j := 0, 0;
    while i < n * 4
      invariant j <= n && i == 4 * j
      invariant dest[..i] == want[..i]
    {
      PalettePixel(palette[..], data, n, j);
      var e := if j < |data| then 3 * data[j] as nat else 0;
      var q := (if j < |data| then palette[e..e + 3] else [0, 0, 0]) + [255];
      ghost var before := dest[..];
      PutPixel(dest, j, q);
      PixelWritten(want, before, dest[..], j, q);
      i, j := i + 4, j + 1;
    }
  }

  /* ---------- The decoder object ---------- */

  class TightDecoder {
    /** TightPNG: PNG rectangles are accepted and basic compression is not. */
    const png: bool
    const codec: Codec
    /** The mode nibble of the control byte, once read. */
    var ctl: Option<nat>
    var filter: Option<byte>
    var numColors: nat
    const palette: array<byte>
    var len: nat
    const zlibs: seq<Inflator>
    /** The output buffer of the palette paths; empty until first needed. */
    var scratch: array<byte>

    ghost predicate Valid()
      reads this
    {
      palette.Length == PaletteBytes && |zlibs| == 4 &&
      (forall i, j :: 0 <= i < j < 4 ==> zlibs[i] != zlibs[j]) &&
      (forall i :: 0 <= i < 4 ==> zlibs[i].codec == codec) &&
      (ctl.Some? ==> ctl.value < 16) && scratch != palette
    }

    /** The resume fields as a value. */
    ghost function State(): TightState
      reads this, palette, zlibs
      requires Valid()
    {
      TightState(ctl, filter, numColors, palette[..], len,
                 [zlibs[0].State(), zlibs[1].State(), zlibs[2].State(), zlibs[3].State()])
    }

    /** One call left the decoder, the read cursor and the display log as
        outcome `o` of a call that started at cursor `i0` with log `l0`. */
    ghost predicate Leaves(o: Outcome<TightState>, sock: Socket, display: Display, i0: nat, l0: seq<Call>, r: Result<bool>)
      reads this, palette, zlibs, sock, display
      requires Valid()
    {
      State() == o.state && sock.index == i0 + o.consumed && display.log == l0 + o.calls && r == o.result
    }

    constructor(png: bool, codec: Codec)
      ensures Valid() && this.png == png && this.codec == codec && scratch.Length == 0
      ensures State() == TightState(None, None, 0, Zeros(PaletteBytes), 0,
                                    [ZState([], []), ZState([], []), ZState([], []), ZState([], [])])
    {
      var zs: seq<Inflator> := [];
      for i := 0 to 4
        invariant |zs| == i
        invariant forall k :: 0 <= k < i ==> fresh(zs[k]) && zs[k].codec == codec && zs[k].State() == ZState([], [])
        invariant forall j, k :: 0 <= j < k < i ==> zs[j] != zs[k]
      {
        var z := new Inflator(codec);
        zs := zs + [z];
      }
      this.png := png;
      this.codec := codec;
      ctl := None;
      filter := None;
      numColors := 0;
      palette := new byte[PaletteBytes](_ => 0);
      len := 0;
      scratch := new byte[0];
      zlibs := zs;
      new;
      assert palette[..] == Zeros(PaletteBytes);
    }

    method DecodeRect(x: int, y: int, width: nat, height: nat, sock: Socket, display: Display)
      returns (r: Result<bool>)
      requires Valid() && sock.Valid()
      modifies this, palette, scratch, zlibs, sock, display
      ensures Valid() && sock.Valid() && sock.data == old(sock.data)
      ensures sock.sendQueue == old(sock.sendQueue) && sock.sent == old(sock.sent)
      ensures Leaves(Step(old(State()), old(sock.Unread()), x, y, width, height, codec, png),
                     sock, display, old(sock.index), old(display.log), r)
    {
      if ctl.None? {
        var short := sock.Lacks(1);
        if short {
          return Ok(false);
        }
        ghost var s0, u0 := State(), sock.Unread();
        var b := sock.Shift8();
        ResetZlibs(b);
        ctl := Some(b as nat / 16);
        assert State() == Control(s0, u0[0]);
        assert sock.Unread() == u0[1..];
      }
      r := DecodeMode(x, y, width, height, sock, display);
    }

    /** Resets the streams the low nibble of the control byte names. */
    method ResetZlibs(b: byte)
      requires Valid()
      modifies zlibs
      ensures Valid() && State() == old(State()).(zlibs := ResetStreams(old(State()).zlibs, b))
    {
      ghost var s0 := State();
      for i := 0 to 4
        invariant Valid() && State() == s0.(zlibs := ResetsBelow(s0.zlibs, b, i))
      {
        ResetIfSet(b, i);
        ResetsBelowNext(s0.zlibs, b, i);
      }
    }

    /** The body of `resetZlibs`' loop: stream `i` is reset when its bit is set. */
    method ResetIfSet(b: byte, i: nat)
      requires Valid() && i < 4
      modifies zlibs[i]
      ensures Valid() && State() == old(State()).(zlibs := old(State()).zlibs[i := ResetOne(old(State()).zlibs[i], b, i)])
    {
      ghost var s0 := State();
      if (b as nat / Pow2(i)) % 2 == 1 {
        zlibs[i].Reset();
      }
      assert State().zlibs == s0.zlibs[i := ResetOne(s0.zlibs[i], b, i)];
    }

    /** The dispatch on the saved mode; the mode is cleared on completion. */
    method DecodeMode(x: int, y: int, width: nat, height: nat, sock: Socket, display: Display)
      returns (r: Result<bool>)
      requires Valid() && sock.Valid() && ctl.Some?
      modifies this, palette, scratch, zlibs, sock, display
      ensures Valid() && sock.Valid() && sock.data == old(sock.data)
      ensures sock.sendQueue == old(sock.sendQueue) && sock.sent == old(sock.sent)
      ensures Leaves(Mode(old(State()), old(sock.Unread()), x, y, width, height, codec, png),
                     sock, display, old(sock.index), old(display.log), r)
    {
      var c := ctl.value;
      if c == 8 {
        r := FillRect(x, y, width, height, sock, display);
      } else if c == 9 {
        r := PictureRect(x, y, width, height, "image/jpeg", sock, display);
      } else if c == 10 {
        if png {
          r := PictureRect(x, y, width, height, "image/png", sock, display);
        } else {
          return Err("PNG received in standard Tight rect");
        }
      } else if c < 8 {
        r := BasicRect(c, x, y, width, height, sock, display);
      } else {
        return Err("Illegal tight compression received");
      }
      if r == Ok(true) {
        ctl := None;
      }
    }

    method FillRect(x: int, y: int, width: nat, height: nat, sock: Socket, display: Display)
      returns (r: Result<bool>)
      requires Valid() && sock.Valid()
      modifies sock, display
      ensures sock.Valid() && sock.data == old(sock.data)
      ensures sock.sendQueue == old(sock.sendQueue) && sock.sent == old(sock.sent)
      ensures Leaves(Fill(old(State()), old(sock.Unread()), x, y, width, height),
                     sock, display, old(sock.index), old(display.log), r)
    {
      var short := sock.Lacks(3);
      if short {
        return Ok(false);
      }
      var pixel := sock.ShiftBytes(3);
      display.FillRect(x, y, width, height, pixel);
      r := Ok(true);
    }

    /** A JPEG or (TightPNG only) PNG rectangle. */
    method PictureRect(x: int, y: int, width: nat, height: nat, mime: string, sock: Socket, display: Display)
      returns (r: Result<bool>)
      requires Valid() && sock.Valid()
      modifies this`len, sock, display
      ensures Valid() && sock.Valid() && sock.data == old(sock.data)
      ensures sock.sendQueue == old(sock.sendQueue) && sock.sent == old(sock.sent)
      ensures Leaves(Picture(old(State()), old(sock.Unread()), x, y, width, height, mime),
                     sock, display, old(sock.index), old(display.log), r)
    {
      var data := ReadData(sock);
      if data.None? {
        return Ok(false);
      }
      display.ImageRect(x, y, width, height, mime, data.value);
      r := Ok(true);
    }

    method BasicRect(c: nat, x: int, y: int, width: nat, height: nat, sock: Socket, display: Display)
      returns (r: Result<bool>)
      requires Valid() && sock.Valid() && c < 8
      modifies this, palette, scratch, zlibs, sock, display
      ensures Valid() && sock.Valid() && sock.data == old(sock.data)
      ensures sock.sendQueue == old(sock.sendQueue) && sock.sent == old(sock.sent)
      ensures Leaves(Basic(old(State()), old(sock.Unread()), c, x, y, width, height, codec, png),
                     sock, display, old(sock.index), old(display.log), r)
    {
      if png {
        return Err("BasicCompression received in TightPNG rect");
      }
      ghost var s0, u0 := State(), sock.Unread();
      var ok := ReadFilter(c, sock);
      if !ok {
        return Ok(false);
      }
      if filter.value > 2 {
        return Err("Illegal tight filter received");
      }
      BasicKnown(s0, u0, c, x, y, width, height, codec);
      r := RunFilter(c % 4, x, y, width, height, sock, display);
    }

    /** The filter: saved, read from the explicit filter byte, or the copy
        filter. */
    method ReadFilter(c: nat, sock: Socket) returns (ok: bool)
      requires Valid() && sock.Valid()
      modifies this`filter, sock
      ensures Valid() && sock.Valid() && sock.data == old(sock.data)
      ensures sock.sendQueue == old(sock.sendQueue) && sock.sent == old(sock.sent)
      ensures ok <==> FilterBytes(old(State()), c) <= |old(sock.Unread())|
      ensures !ok ==> State() == old(State()) && sock.index == old(sock.index)
      ensures ok ==> State() == old(State()).(filter := Some(FilterOf(old(State()), old(sock.Unread()), c))) &&
                     sock.index == old(sock.index) + FilterBytes(old(State()), c) &&
                     sock.Unread() == old(sock.Unread())[FilterBytes(old(State()), c)..]
    {
      if filter.None? {
        if c >= 4 {
          var short := sock.Lacks(1);
          if short {
            return false;
          }
          var f := sock.Shift8();
          filter := Some(f);
        } else {
          filter := Some(0);
        }
      }
      ok := true;
    }

    /** The dispatch on a known filter, forgotten on completion. */
    method RunFilter(sid: nat, x: int, y: int, width: nat, height: nat, sock: Socket, display: Display)
      returns (r: Result<bool>)
      requires Valid() && sock.Valid() && filter.Some? && filter.value <= 2 && sid < 4
      modifies this, palette, scratch, zlibs, sock, display
      ensures Valid() && sock.Valid() && sock.data == old(sock.data)
      ensures sock.sendQueue == old(sock.sendQueue) && sock.sent == old(sock.sent)
      ensures Leaves(Finish(FilterStep(old(State()), old(sock.Unread()), sid, x, y, width, height, codec)),
                     sock, display, old(sock.index), old(display.log), r)
    {
      var f := filter.value;
      if f == 0 {
        r := CopyFilter(sid, x, y, width, height, sock, display);
      } else if f == 1 {
        r := PaletteFilter(sid, x, y, width, height, sock, display);
      } else {
        r := GradientFilter(sid, x, y, width, height, sock, display);
      }
      if r == Ok(true) {
        filter := None;
      }
    }

    method CopyFilter(sid: nat, x: int, y: int, width: nat, height: nat, sock: Socket, display: Display)
      returns (r: Result<bool>)
      requires Valid() && sock.Valid() && filter == Some(0) && sid < 4
      modifies this`len, zlibs, sock, display
      ensures Valid() && sock.Valid() && sock.data == old(sock.data)
      ensures sock.sendQueue == old(sock.sendQueue) && sock.sent == old(sock.sent)
      ensures Leaves(FilterStep(old(State()), old(sock.Unread()), sid, x, y, width, height, codec),
                     sock, display, old(sock.index), old(display.log), r)
    {
      var size := width * height * 3;
      if size == 0 {
        return Ok(true);
      }
      var d := FetchData(sid, size, sock);
      if d.Err? {
        return Err(d.msg);
      }
      if d.value.None? {
        return Ok(false);
      }
      var rgbx := CopyPixels(d.value.value, width * height);
      display.BlitImage(x, y, width, height, rgbx);
      r := Ok(true);
    }

    method PaletteFilter(sid: nat, x: int, y: int, width: nat, height: nat, sock: Socket, display: Display)
      returns (r: Result<bool>)
      requires Valid() && sock.Valid() && filter == Some(1) && sid < 4
      modifies this, palette, scratch, zlibs, sock, display
      ensures Valid() && sock.Valid() && sock.data == old(sock.data)
      ensures sock.sendQueue == old(sock.sendQueue) && sock.sent == old(sock.sent)
      ensures Leaves(FilterStep(old(State()), old(sock.Unread()), sid, x, y, width, height, codec),
                     sock, display, old(sock.index), old(display.log), r)
    {
      ghost var s0, u0 := State(), sock.Unread();
      if numColors == 0 {
        var ok := ReadPalette(sock);
        if !ok {
          return Ok(false);
        }
        PaletteStep(s0, u0, sid, x, y, width, height, codec);
        r := PaletteBody(sid, x, y, width, height, sock, display);
      } else {
        FilterStepKnown(s0, u0, sid, x, y, width, height, codec);
        r := PaletteBody(sid, x, y, width, height, sock, display);
      }
    }

    /** The colour count and the palette, both at once and only when both
        have arrived. */
    method ReadPalette(sock: Socket) returns (ok: bool)
      requires Valid() && sock.Valid()
      modifies this`numColors, palette, sock
      ensures Valid() && sock.Valid() && sock.data == old(sock.data)
      ensures sock.sendQueue == old(sock.sendQueue) && sock.sent == old(sock.sent)
      ensures ok <==> HasPalette(old(sock.Unread()))
      ensures !ok ==> State() == old(State()) && sock.index == old(sock.index)
      ensures ok ==> State() == WithPalette(old(State()), old(sock.Unread())) &&
                     sock.index == old(sock.index) + PaletteHeader(old(sock.Unread())) &&
                     sock.Unread() == old(sock.Unread())[PaletteHeader(old(sock.Unread()))..]
    {
      var short := sock.Lacks(1);
      if short {
        return false;
      }
      var count := sock.Peek8();
      var n := count as nat + 1;
      short := sock.Lacks(1 + 3 * n);
      if short {
        return false;
      }
      TakePalette(sock, n);
      ok := true;
    }

    /** The colour count and the `n` colours, once they have arrived. */
    method TakePalette(sock: Socket, n: nat)
      requires Valid() && sock.Valid() && HasPalette(sock.Unread()) && n == sock.Unread()[0] as nat + 1
      modifies this`numColors, palette, sock
      ensures Valid() && sock.Valid() && sock.data == old(sock.data)
      ensures sock.sendQueue == old(sock.sendQueue) && sock.sent == old(sock.sent)
      ensures State() == WithPalette(old(State()), old(sock.Unread())) &&
              sock.index == old(sock.index) + PaletteHeader(old(sock.Unread())) &&
              sock.Unread() == old(sock.Unread())[PaletteHeader(old(sock.Unread()))..]
    {
      ghost var s0, u0, p0 := State(), sock.Unread(), palette[..];
      numColors := n;
      sock.SkipBytes(1);
      assert sock.Unread() == u0[1..];
      sock.ShiftTo(palette, 3 * n);
      assert u0[1..][..3 * n] == u0[1..1 + 3 * n];
      assert State().zlibs == s0.zlibs;
      assert State() == s0.(numColors := n, palette := u0[1..1 + 3 * n] + p0[3 * n..]);
    }

    /** The palette filter's data once the palette is known. */
    method PaletteBody(sid: nat, x: int, y: int, width: nat, height: nat, sock: Socket, display: Display)
      returns (r: Result<bool>)
      requires Valid() && sock.Valid() && filter == Some(1) && sid < 4
      modifies this, scratch, zlibs, sock, display
      ensures Valid() && sock.Valid() && sock.data == old(sock.data)
      ensures sock.sendQueue == old(sock.sendQueue) && sock.sent == old(sock.sent)
      ensures Leaves(FilterBody(old(State()), old(sock.Unread()), sid, x, y, width, height, codec),
                     sock, display, old(sock.index), old(display.log), r)
    {
      var size := RowSize(numColors, width) * height;
      if size == 0 {
        return Ok(true);
      }
      var d := FetchData(sid, size, sock);
      if d.Err? {
        return Err(d.msg);
      }
      if d.value.None? {
        return Ok(false);
      }
      DrawPalette(x, y, width, height, d.value.value, display);
      r := Ok(true);
    }

    /** Draws palette data, two-colour or 8-bit, and forgets the colour count. */
    method DrawPalette(x: int, y: int, width: nat, height: nat, data: seq<byte>, display: Display)
      requires Valid() && |data| == DataSize(1, numColors, width, height)
      modifies this`scratch, this`numColors, scratch, display
      ensures Valid() && numColors == 0 && State() == old(State()).(numColors := 0)
      ensures display.log == old(display.log) +
                [BlitImage(x, y, width, height, Pixels(1, old(numColors), palette[..], data, width, height))]
    {
      if numColors == 2 {
        MonoRect(x, y, width, height, data, display);
      } else {
        PaletteRect(x, y, width, height, data, display);
      }
      numColors := 0;
    }

    method GradientFilter(sid: nat, x: int, y: int, width: nat, height: nat, sock: Socket, display: Display)
      returns (r: Result<bool>)
      requires Valid() && sock.Valid() && filter == Some(2) && sid < 4
      modifies this`len, zlibs, sock, display
      ensures Valid() && sock.Valid() && sock.data == old(sock.data)
      ensures sock.sendQueue == old(sock.sendQueue) && sock.sent == old(sock.sent)
      ensures Leaves(FilterStep(old(State()), old(sock.Unread()), sid, x, y, width, height, codec),
                     sock, display, old(sock.index), old(display.log), r)
    {
      var size := width * height * 3;
      if size == 0 {
        return Ok(true);
      }
      var d := FetchData(sid, size, sock);
      if d.Err? {
        return Err(d.msg);
      }
      if d.value.None? {
        return Ok(false);
      }
      var rgbx := GradientPixels(d.value.value, width, height);
      display.BlitImage(x, y, width, height, rgbx);
      r := Ok(true);
    }

    /** Two-colour pixels, one bit each, drawn through the scratch buffer. */
    method MonoRect(x: int, y: int, width: nat, height: nat, data: seq<byte>, display: Display)
      requires Valid() && |data| == RowSize(2, width) * height
      modifies this`scratch, scratch, display
      ensures Valid()
      ensures display.log == old(display.log) + [BlitImage(x, y, width, height, Mono(palette[..], data, width, height))]
    {
      GetScratchBuffer(width * height * 4);
      MonoInto(scratch, palette, data, width, height);
      display.BlitImage(x, y, width, height, scratch[..width * height * 4]);
    }

    /** Palette pixels, one byte each, drawn through the scratch buffer. */
    method PaletteRect(x: int, y: int, width: nat, height: nat, data: seq<byte>, display: Display)
      requires Valid()
      modifies this`scratch, scratch, display
      ensures Valid()
      ensures display.log == old(display.log) + [BlitImage(x, y, width, height, PaletteRgbx(palette[..], data, width * height))]
    {
      GetScratchBuffer(width * height * 4);
      PaletteInto(scratch, palette, data, width * height);
      display.BlitImage(x, y, width, height, scratch[..width * height * 4]);
    }

    /** The scratch buffer, replaced by a larger one when too small. */
    method GetScratchBuffer(size: nat)
      requires Valid()
      modifies this`scratch
      ensures Valid() && scratch.Length >= size
      ensures old(scratch.Length) >= size ==> scratch == old(scratch)
      ensures old(scratch.Length) < size ==> fresh(scratch) && scratch.Length == size
    {
      if scratch.Length < size {
        scratch := new byte[size](_ => 0);
      }
    }

    /** `size` uncompressed bytes on stream `sid`. */
    method FetchData(sid: nat, size: nat, sock: Socket) returns (d: Result<Option<seq<byte>>>)
      requires Valid() && sock.Valid() && sid < 4 && size > 0
      modifies this`len, zlibs[sid], sock
      ensures Valid() && sock.Valid() && sock.data == old(sock.data)
      ensures sock.sendQueue == old(sock.sendQueue) && sock.sent == old(sock.sent)
      ensures var f := FetchBlock(old(State()), old(sock.Unread()), sid, size, codec);
              State() == f.state && sock.index == old(sock.index) + f.consumed && d == f.data
    {
      if size < 12 {
        var short := sock.Lacks(size);
        if short {
          return Ok(None);
        }
        var data := sock.ShiftBytes(size);
        return Ok(Some(data));
      }
      ghost var s0 := State();
      var compressed := ReadData(sock);
      if compressed.None? {
        return Ok(None);
      }
      var out := zlibs[sid].InflateChunk(compressed.value, size);
      assert State().zlibs == s0.zlibs[sid := zlibs[sid].State()];
      match out {
        case Err(e) => d := Err(e);
        case Ok(v) => d := Ok(Some(v));
      }
    }

    /** The compact length at the head of the queue. */
    static method ReadLength(sock: Socket) returns (n: nat)
      requires sock.Valid() && |sock.Unread()| >= 3
      modifies sock
      ensures sock.Valid() && sock.data == old(sock.data)
      ensures sock.sendQueue == old(sock.sendQueue) && sock.sent == old(sock.sent)
      ensures (n, sock.index - old(sock.index)) == CompactLength(old(sock.Unread()))
    {
      ghost var u := sock.Unread();
      var b := sock.Shift8();
      n := b as nat % 128;
      if b >= 128 {
        b := sock.Shift8();
        assert b == u[1];
        n := n + b as nat % 128 * 128;
        if b >= 128 {
          b := sock.Shift8();
          assert b == u[2];
          n := n + b as nat * 16384;
        }
      }
    }

    /** `_readData`: a compact length, then that many bytes. */
    method ReadData(sock: Socket) returns (data: Option<seq<byte>>)
      requires Valid() && sock.Valid()
      modifies this`len, sock
      ensures Valid() && sock.Valid() && sock.data == old(sock.data)
      ensures sock.sendQueue == old(sock.sendQueue) && sock.sent == old(sock.sent)
      ensures var rd := DataBlock(old(len), old(sock.Unread()));
              len == rd.len && sock.index == old(sock.index) + rd.consumed && data == rd.block
    {
      ghost var u := sock.Unread();
      ghost var k := 0;
      if len == 0 {
        var short := sock.Lacks(3);
        if short {
          return None;
        }
        len := ReadLength(sock);
        k := CompactLength(u).1;
        assert (len, k) == CompactLength(u);
      }
      assert sock.Unread() == u[k..] && sock.index == old(sock.index) + k;
      var short := sock.Lacks(len);
      if short {
        assert DataBlock(old(len), u) == Read(len, k, None);
        return None;
      }
      var d := sock.ShiftBytes(len);
      assert d == u[k..k + len];
      assert DataBlock(old(len), u) == Read(0, k + len, Some(d));
      len := 0;
      data := Some(d);
    }
  }
}
