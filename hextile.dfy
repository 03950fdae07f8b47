/** The Hextile encoding: the rectangle is cut into 16x16 tiles, visited
    row by row. Each tile starts with a subencoding byte whose bits say
    whether it is raw pixels, whether a new background or foreground colour
    follows, and whether (coloured) subrectangles follow. The tile count,
    the colours and the last subencoding survive from call to call. */
module Hextile {
  import opened Bytes
  import opened Display
  import opened Websock
  import opened Decoder

  const TileBufferSize: nat := 16 * 16 * 4

  datatype Tile = Tile(x: int, y: int, w: int, h: int)

  /** The decoder's fields, `buf` being the contents of `_tileBuffer`. */
  datatype HexState = HexState(tiles: nat, tilesX: nat, tilesY: nat, totalTiles: nat,
                               last: byte, bg: seq<byte>, fg: seq<byte>, buf: seq<byte>, tile: Tile)

  /* ---------- Tile geometry ---------- */

  /** Tile number `k` of the rectangle, counted row by row. */
  function TileAt(x: int, y: int, w: nat, h: nat, tilesX: nat, k: nat): Tile
    requires tilesX > 0
  {
    var tx := x + (k % tilesX) * 16;
    var ty := y + (k / tilesX) * 16;
    Tile(tx, ty, Min(16, (x + w) - tx), Min(16, (y + h) - ty))
  }

  /** The pixel count of a tile, at most 16 * 16. */
  function Area(w: int, h: int): (n: nat)
    requires 0 <= w <= 16 && 0 <= h <= 16
    ensures n == w * h && n <= 256
  {
    assert w * h <= 16 * h;
    w * h
  }

  /** The number of tiles of a `w` by `h` rectangle. */
  function TileCount(w: nat, h: nat): nat
  {
    CeilDiv(w, 16) * CeilDiv(h, 16)
  }

  /** Every tile of the rectangle is 1 to 16 pixels on each side and lies
      inside the rectangle. */
  lemma {:induction false} TileInside(x: int, y: int, w: nat, h: nat, k: nat)
    requires k < TileCount(w, h)
    ensures CeilDiv(w, 16) > 0
    ensures var t := TileAt(x, y, w, h, CeilDiv(w, 16), k);
            1 <= t.w <= 16 && 1 <= t.h <= 16 &&
            x <= t.x && t.x + t.w <= x + w && y <= t.y && t.y + t.h <= y + h
  {
    var tx, ty := CeilDiv(w, 16), CeilDiv(h, 16);
    assert tx > 0;
    var col, row := k % tx, k / tx;
    assert col < tx;
    assert row < ty;
    assert col * 16 < w by {
      assert (tx - 1) * 16 < w;
      assert col * 16 <= (tx - 1) * 16;
    }
    assert row * 16 < h by {
      assert (ty - 1) * 16 < h;
      assert row * 16 <= (ty - 1) * 16;
    }
  }

  /** Tiles go left to right, and after the last tile of a row to the
      first tile of the next one. */
  lemma {:induction false} TileNext(x: int, y: int, w: nat, h: nat, tilesX: nat, k: nat)
    requires tilesX > 0
    ensures var t, n := TileAt(x, y, w, h, tilesX, k), TileAt(x, y, w, h, tilesX, k + 1);
            if (k + 1) % tilesX != 0 then n.x == t.x + 16 && n.y == t.y
            else n.x == x && n.y == t.y + 16
  {
    var q, r := k / tilesX, k % tilesX;
    assert k == tilesX * q + r;
    if r + 1 < tilesX {
      ModUnique(k + 1, tilesX, q, r + 1);
    } else {
      assert k + 1 == tilesX * (q + 1) + 0;
      ModUnique(k + 1, tilesX, q + 1, 0);
    }
  }

  /* ---------- The byte count of a tile ---------- */

  datatype Scan = Short | Bad(sub: byte) | Need(n: nat)

  /** Bit `m` (a power of two) of a subencoding byte, in arithmetic terms:
      1 raw, 2 background specified, 4 foreground specified, 8 any
      subrectangles, 16 subrectangles coloured. */
  predicate Has(sub: byte, m: nat)
    requires m > 0
  {
    (sub as nat / m) % 2 == 1
  }

  function SubrectSize(sub: byte): nat
  {
    if Has(sub, 16) then 4 + 2 else 2
  }

  /** Where the subrectangle count sits, past the optional colours. */
  function CountOffset(sub: byte): nat
  {
    1 + (if Has(sub, 2) then 4 else 0) + (if Has(sub, 4) then 4 else 0)
  }

  /** How many bytes the tile at the front of `u` takes, as far as it can
      be told from the queued bytes. */
  function TileScan(u: seq<byte>, tw: nat, th: nat): (r: Scan)
    ensures r.Need? ==> |u| >= 1 && u[0] <= 30
    ensures r.Need? && !Has(u[0], 1) ==> r.n >= CountOffset(u[0])
  {
    if |u| < 1 then Short
    else
      var sub := u[0];
      if sub > 30 then Bad(sub)
      else if Has(sub, 1) then Need(1 + tw * th * 4)
      else if Has(sub, 8) then
        var b := CountOffset(sub);
        if |u| < b + 1 then Short
        else Need(b + 1 + u[b] as nat * SubrectSize(sub))
      else Need(CountOffset(sub))
  }

  /* ---------- Painting the tile buffer ---------- */

  /** Four bytes of one pixel at byte offset `p`: the colour's red, green
      and blue and an opaque alpha. Bytes past the buffer are not written,
      as with a `Uint8Array`. */
  function SetPixel(buf: seq<byte>, p: nat, color: seq<byte>): (r: seq<byte>)
    requires |color| >= 3
    ensures |r| == |buf|
  {
    seq(|buf|, k requires 0 <= k < |buf| =>
      if p <= k < p + 4 then (if k - p == 3 then 255 else color[k - p]) else buf[k])
  }

  /** _startTile: the first `pixels` pixels painted with the background. */
  function StartBuf(buf: seq<byte>, pixels: nat, color: seq<byte>): (r: seq<byte>)
    requires |color| >= 3
    ensures |r| == |buf|
  {
    if pixels == 0 then buf else SetPixel(StartBuf(buf, pixels - 1, color), 4 * (pixels - 1), color)
  }

  /** The background fill, pointwise: the first `pixels` pixels hold the
      colour with alpha 255, every later byte is unchanged. */
  lemma {:induction false} StartBufBytes(buf: seq<byte>, pixels: nat, color: seq<byte>, k: nat)
    requires |color| >= 3 && k < |buf|
    ensures StartBuf(buf, pixels, color)[k] ==
            if k < 4 * pixels then (if k % 4 == 3 then 255 else color[k % 4]) else buf[k]
  {
    if pixels > 0 {
      StartBufBytes(buf, pixels - 1, color, k);
      if 4 * (pixels - 1) <= k < 4 * pixels {
        assert k % 4 == k - 4 * (pixels - 1);
      }
    }
  }

  /** Row `j` of a subrectangle, columns `x0` to `x1 - 1`, in a tile
      `width` pixels wide; a column past the width wraps into the next row,
      because the pixel offset is i + j*width. */
  function PaintRow(buf: seq<byte>, width: int, j: int, x0: int, x1: int, color: seq<byte>): (r: seq<byte>)
    requires |color| >= 3
    ensures |r| == |buf|
    decreases x1 - x0
  {
    if x1 <= x0 then buf
    else
      var p := ((x1 - 1) + j * width) * 4;
      SetPixel(PaintRow(buf, width, j, x0, x1 - 1, color), if p < 0 then |buf| else p, color)
  }

  /** _subTile: rows `y0` to `y1 - 1` of a subrectangle, unclipped. */
  function PaintRect(buf: seq<byte>, width: int, x0: int, x1: int, y0: int, y1: int, color: seq<byte>): (r: seq<byte>)
    requires |color| >= 3
    ensures |r| == |buf|
    decreases y1 - y0
  {
    if y1 <= y0 then buf
    else PaintRow(PaintRect(buf, width, x0, x1, y0, y1 - 1, color), width, y1 - 1, x0, x1, color)
  }

  /** Does pixel `q` of a `width`-wide tile fall in row `j` of the
      subrectangle starting at column `x0` and `sw` wide? */
  predicate InRow(q: int, width: int, j: int, x0: int, sw: int)
  {
    x0 <= q - j * width < x0 + sw
  }

  predicate Covered(q: int, width: int, x0: int, sw: int, y0: int, y1: int)
  {
    exists j :: y0 <= j < y1 && InRow(q, width, j, x0, sw)
  }

  /** The painted subrectangle, pointwise: a byte of a covered pixel holds
      the colour (alpha 255), every other byte is unchanged. */
  lemma {:induction false} PaintRectBytes(buf: seq<byte>, width: nat, x0: nat, sw: nat, y0: nat, y1: nat,
                                          color: seq<byte>, k: nat)
    requires |color| >= 3 && |buf| % 4 == 0 && k < |buf|
    ensures var r := PaintRect(buf, width, x0, x0 + sw, y0, y1, color);
            r[k] == if Covered(k / 4, width, x0, sw, y0, y1)
                    then (if k % 4 == 3 then 255 else color[k % 4]) else buf[k]
    decreases y1 - y0
  {
    if y1 > y0 {
      var c: byte := if k % 4 == 3 then 255 else color[k % 4];
      var prev := PaintRect(buf, width, x0, x0 + sw, y0, y1 - 1, color);
      PaintRectBytes(buf, width, x0, sw, y0, y1 - 1, color, k);
      assert prev[k] == if Covered(k / 4, width, x0, sw, y0, y1 - 1) then c else buf[k];
      PaintRowBytes(prev, width, y1 - 1, x0, sw, color, k);
      var r := PaintRow(prev, width, y1 - 1, x0, x0 + sw, color);
      assert r == PaintRect(buf, width, x0, x0 + sw, y0, y1, color);
      assert r[k] == if InRow(k / 4, width, y1 - 1, x0, sw) then c else prev[k];
      CoveredLastRow(k / 4, width, x0, sw, y0, y1);
    } else {
      assert !Covered(k / 4, width, x0, sw, y0, y1);
    }
  }

  lemma {:induction false} CoveredLastRow(q: int, width: int, x0: int, sw: int, y0: int, y1: int)
    requires y1 > y0
    ensures Covered(q, width, x0, sw, y0, y1) <==>
            InRow(q, width, y1 - 1, x0, sw) || Covered(q, width, x0, sw, y0, y1 - 1)
  {
    if Covered(q, width, x0, sw, y0, y1) && !InRow(q, width, y1 - 1, x0, sw) {
      var j :| y0 <= j < y1 && InRow(q, width, j, x0, sw);
      assert j < y1 - 1;
    }
    if InRow(q, width, y1 - 1, x0, sw) {
      assert y0 <= y1 - 1 < y1;
    }
  }

  lemma {:induction false} PaintRowBytes(buf: seq<byte>, width: nat, j: nat, x0: nat, sw: nat,
                                         color: seq<byte>, k: nat)
    requires |color| >= 3 && |buf| % 4 == 0 && k < |buf|
    ensures var r := PaintRow(buf, width, j, x0, x0 + sw, color);
            r[k] == if InRow(k / 4, width, j, x0, sw)
                    then (if k % 4 == 3 then 255 else color[k % 4]) else buf[k]
    decreases sw
  {
    if sw > 0 {
      PaintRowBytes(buf, width, j, x0, sw - 1, color, k);
      var i := x0 + sw - 1;
      var p := (i + j * width) * 4;
      assert p <= k < p + 4 <==> k / 4 == i + j * width;
    }
  }

  /** PaintSubrects: the first `k` subrectangle records of `s` painted in
      order, each a colour (only when coloured), a position byte and a size
      byte. Painting stops early when `s` runs out of records; the byte
      count of a tile rules that out. */
  function PaintSubrects(buf: seq<byte>, width: nat, s: seq<byte>, k: nat, coloured: bool, fg: seq<byte>): (r: seq<byte>)
    requires |fg| == 4
    ensures |r| == |buf|
    decreases k
  {
    var size := if coloured then 6 else 2;
    if k == 0 || |s| < size then buf
    else PaintSubrects(SubrectPaint(buf, width, s[..size], coloured, fg), width, s[size..], k - 1, coloured, fg)
  }

  /** One subrectangle: position from the high and low nibbles of the
      next-to-last byte, size one more than the nibbles of the last. */
  function SubrectPaint(buf: seq<byte>, width: nat, rec: seq<byte>, coloured: bool, fg: seq<byte>): (r: seq<byte>)
    requires |fg| == 4 && |rec| == (if coloured then 6 else 2)
    ensures |r| == |buf|
  {
    var sx, sy := Hi4(rec[|rec| - 2]), Lo4(rec[|rec| - 2]);
    var sw, sh := Hi4(rec[|rec| - 1]) + 1, Lo4(rec[|rec| - 1]) + 1;
    PaintRect(buf, width, sx, sx + sw, sy, sy + sh, if coloured then rec[..4] else fg)
  }

  /** The high and low nibble of a byte, in arithmetic terms. */
  function Hi4(b: byte): nat { b as nat / 16 }
  function Lo4(b: byte): nat { b as nat % 16 }

  /** A raw tile's bytes with every alpha byte forced to 255. */
  function Opaque(data: seq<byte>): (r: seq<byte>)
    ensures |r| == |data|
  {
    seq(|data|, k requires 0 <= k < |data| => if k % 4 == 3 then 255 else data[k])
  }

  /* ---------- One tile ---------- */

  predicate WellFormed(st: HexState)
  {
    |st.bg| == 4 && |st.fg| == 4 && |st.buf| == TileBufferSize
  }

  /** The effect of a whole tile `v` (exactly the bytes it takes). */
  function ApplyTile(st: HexState, v: seq<byte>, t: Tile): (o: Outcome<HexState>)
    requires WellFormed(st) && st.tiles > 0
    requires 1 <= t.w <= 16 && 1 <= t.h <= 16
    requires TileScan(v, t.w, t.h) == Need(|v|)
    ensures WellFormed(o.state) && o.consumed == |v| && o.result == Ok(true)
    ensures o.state.tiles == st.tiles - 1 && o.state.last == v[0]
    ensures o.state.tilesX == st.tilesX && o.state.tilesY == st.tilesY && o.state.totalTiles == st.totalTiles
  {
    var sub := v[0];
    var done := st.(tiles := st.tiles - 1, last := sub);
    if sub == 0 then
      Outcome(done, |v|, if Has(st.last, 1) then [] else [FillRect(t.x, t.y, t.w, t.h, st.bg)], Ok(true))
    else if Has(sub, 1) then
      Outcome(done, |v|, [BlitImage(t.x, t.y, t.w, t.h, Opaque(v[1..]))], Ok(true))
    else
      var p := PaintTile(st, v, t);
      Outcome(p.(tiles := st.tiles - 1, last := sub), |v|,
              [BlitImage(t.x, t.y, t.w, t.h, p.buf[..Area(t.w, t.h) * 4])], Ok(true))
  }

  /** A tile that is neither blank nor raw: optional new colours, the
      background painted, then the subrectangles. */
  function PaintTile(st: HexState, v: seq<byte>, t: Tile): (r: HexState)
    requires WellFormed(st) && 1 <= t.w <= 16 && 1 <= t.h <= 16
    requires TileScan(v, t.w, t.h) == Need(|v|) && v[0] != 0 && !Has(v[0], 1)
    ensures WellFormed(r) && r.tiles == st.tiles && r.last == st.last
  {
    var sub := v[0];
    var bg, fg := TileBg(st.bg, v), TileFg(st.fg, v);
    var start := StartBuf(st.buf, Area(t.w, t.h), bg);
    var b := CountOffset(sub);
    var buf := if Has(sub, 8) then PaintSubrects(start, t.w, v[b + 1..], v[b] as nat, Has(sub, 16), fg)
               else start;
    st.(bg := bg, fg := fg, buf := buf, tile := t)
  }

  /** The background after a tile's colour fields: read when bit 0x02 is
      set, else kept. */
  function TileBg(bg: seq<byte>, v: seq<byte>): (r: seq<byte>)
    requires |bg| == 4 && |v| >= 1 && |v| >= CountOffset(v[0])
    ensures |r| == 4
  {
    if Has(v[0], 2) then v[1..5] else bg
  }

  /** The foreground after a tile's colour fields: read after the
      background when bit 0x04 is set, else kept. */
  function TileFg(fg: seq<byte>, v: seq<byte>): (r: seq<byte>)
    requires |fg| == 4 && |v| >= 1 && |v| >= CountOffset(v[0])
    ensures |r| == 4
  {
    var p := 1 + (if Has(v[0], 2) then 4 else 0);
    if Has(v[0], 4) then v[p..p + 4] else fg
  }

  /** One tile from the front of the unread bytes `u`: nothing is consumed
      until the whole tile is there. */
  function TileStep(st: HexState, u: seq<byte>, t: Tile): (o: Outcome<HexState>)
    requires WellFormed(st) && st.tiles > 0
    requires 1 <= t.w <= 16 && 1 <= t.h <= 16
    ensures WellFormed(o.state) && o.consumed <= |u|
    ensures o.result != Ok(true) ==> o.state == st && o.consumed == 0 && o.calls == []
    ensures o.result == Ok(true) ==> 0 < o.consumed && o.state.tiles == st.tiles - 1
    ensures o.state.tilesX == st.tilesX && o.state.tilesY == st.tilesY && o.state.totalTiles == st.totalTiles
  {
    match TileScan(u, t.w, t.h)
    case Short => Outcome(st, 0, [], Ok(false))
    case Bad(sub) => Outcome(st, 0, [], Err("Illegal hextile subencoding"))
    case Need(n) =>
      if |u| < n then Outcome(st, 0, [], Ok(false))
      else
        assert TileScan(u[..n], t.w, t.h) == Need(n) by { TileScanPrefix(u, n, t.w, t.h); }
        ApplyTile(st, u[..n], t)
  }

  /** The count of a tile depends only on its own bytes. */
  lemma {:induction false} TileScanPrefix(u: seq<byte>, n: nat, tw: nat, th: nat)
    requires TileScan(u, tw, th) == Need(n) && n <= |u|
    ensures TileScan(u[..n], tw, th) == Need(n)
  {
  }

  /* ---------- A whole rectangle ---------- */

  /** The fields a resumed call relies on: the tile grid of this
      rectangle, set up by the call that started it. */
  predicate Resumable(st: HexState, w: nat, h: nat)
  {
    WellFormed(st) &&
    (st.tiles > 0 ==>
       st.tilesX == CeilDiv(w, 16) && st.tilesY == CeilDiv(h, 16) &&
       st.totalTiles == TileCount(w, h) && st.tiles <= st.totalTiles)
  }

  /** The tile the running counter points at. */
  function CurrentTile(st: HexState, x: int, y: int, w: nat, h: nat): (t: Tile)
    requires Resumable(st, w, h) && st.tiles > 0
    ensures 1 <= t.w <= 16 && 1 <= t.h <= 16
  {
    TileInside(x, y, w, h, st.totalTiles - st.tiles);
    TileAt(x, y, w, h, st.tilesX, st.totalTiles - st.tiles)
  }

  /** The `while` loop of decodeRect, from byte `at` of the received data
      with the display calls `log` already made: tiles one after another,
      until none is left or one is not all there. */
  function Tiles(st: HexState, data: seq<byte>, at: nat, log: seq<Call>, x: int, y: int, w: nat, h: nat): (o: Run<HexState>)
    requires Resumable(st, w, h) && at <= |data|
    ensures Resumable(o.state, w, h) && at <= o.at <= |data|
    ensures o.result == Ok(true) ==> o.state.tiles == 0
    decreases st.tiles, 1
  {
    if st.tiles == 0 then Run(st, at, log, Ok(true))
    else TileThen(st, data, at, log, x, y, w, h)
  }

  /** One pass of the loop body: the tile the counter points at, then the
      rest of the loop when that tile was complete. */
  function TileThen(st: HexState, data: seq<byte>, at: nat, log: seq<Call>, x: int, y: int, w: nat, h: nat): (o: Run<HexState>)
    requires Resumable(st, w, h) && at <= |data| && st.tiles > 0
    ensures Resumable(o.state, w, h) && at <= o.at <= |data|
    ensures o.result == Ok(true) ==> o.state.tiles == 0
    decreases st.tiles, 0
  {
    var o := TileStep(st, data[at..], CurrentTile(st, x, y, w, h));
    if o.result != Ok(true) then Run(st, at, log, o.result)
    else Tiles(o.state, data, at + o.consumed, log + o.calls, x, y, w, h)
  }

  /** A call starting a rectangle sets up its tile grid. */
  function Begin(st: HexState, w: nat, h: nat): (r: HexState)
    requires Resumable(st, w, h)
    ensures Resumable(r, w, h)
  {
    if st.tiles == 0 then
      st.(tilesX := CeilDiv(w, 16), tilesY := CeilDiv(h, 16), totalTiles := TileCount(w, h), tiles := TileCount(w, h))
    else st
  }

  /** One decodeRect call. */
  function Step(st: HexState, data: seq<byte>, at: nat, log: seq<Call>, x: int, y: int, w: nat, h: nat): (o: Run<HexState>)
    requires Resumable(st, w, h) && at <= |data|
    ensures Resumable(o.state, w, h) && at <= o.at <= |data|
    ensures o.result == Ok(true) ==> o.state.tiles == 0
  {
    Tiles(Begin(st, w, h), data, at, log, x, y, w, h)
  }

  /* ---------- Properties ---------- */

  /** The tiles the loop finishes from state `st`, in the order it
      finishes them. */
  function Visited(st: HexState, data: seq<byte>, at: nat, x: int, y: int, w: nat, h: nat): seq<Tile>
    requires Resumable(st, w, h) && at <= |data|
    decreases st.tiles, 1
  {
    if st.tiles == 0 then [] else VisitedThen(st, data, at, x, y, w, h)
  }

  function VisitedThen(st: HexState, data: seq<byte>, at: nat, x: int, y: int, w: nat, h: nat): seq<Tile>
    requires Resumable(st, w, h) && at <= |data| && st.tiles > 0
    decreases st.tiles, 0
  {
    var o := TileStep(st, data[at..], CurrentTile(st, x, y, w, h));
    if o.result != Ok(true) then []
    else [CurrentTile(st, x, y, w, h)] + Visited(o.state, data, at + o.consumed, x, y, w, h)
  }

  /** The tile at the running counter is tile number totalTiles - tiles
      of the row-major order. */
  lemma {:induction false} CurrentTileAt(st: HexState, x: int, y: int, w: nat, h: nat)
    requires Resumable(st, w, h) && st.tiles > 0
    ensures CeilDiv(w, 16) > 0
    ensures CurrentTile(st, x, y, w, h) == TileAt(x, y, w, h, CeilDiv(w, 16), st.totalTiles - st.tiles)
  {
    TileInside(x, y, w, h, st.totalTiles - st.tiles);
  }

  /** The loop finishes the tiles from the running counter on, one after
      another in row-major order, and completes exactly when it has
      finished all that were left. */
  lemma {:induction false} TilesVisit(st: HexState, data: seq<byte>, at: nat, log: seq<Call>, x: int, y: int, w: nat, h: nat)
    requires Resumable(st, w, h) && at <= |data|
    ensures var vs := Visited(st, data, at, x, y, w, h);
            |vs| <= st.tiles &&
            (Tiles(st, data, at, log, x, y, w, h).result == Ok(true) <==> |vs| == st.tiles) &&
            forall i :: 0 <= i < |vs| ==>
              CeilDiv(w, 16) > 0 && vs[i] == TileAt(x, y, w, h, CeilDiv(w, 16), st.totalTiles - st.tiles + i)
    decreases st.tiles
  {
    if st.tiles > 0 {
      var t := CurrentTile(st, x, y, w, h);
      var a := TileStep(st, data[at..], t);
      assert Tiles(st, data, at, log, x, y, w, h) == TileThen(st, data, at, log, x, y, w, h);
      assert Visited(st, data, at, x, y, w, h) == VisitedThen(st, data, at, x, y, w, h);
      CurrentTileAt(st, x, y, w, h);
      if a.result == Ok(true) {
        var at2 := at + a.consumed;
        TilesVisit(a.state, data, at2, log + a.calls, x, y, w, h);
        var vs := Visited(st, data, at, x, y, w, h);
        var rest := Visited(a.state, data, at2, x, y, w, h);
        assert vs == [t] + rest;
        forall i | 0 <= i < |vs|
          ensures vs[i] == TileAt(x, y, w, h, CeilDiv(w, 16), st.totalTiles - st.tiles + i)
        {
          if i > 0 {
            assert vs[i] == rest[i - 1];
          }
        }
      }
    }
  }

  /** A call visits the tiles TileAt(k0), TileAt(k0 + 1), ... in row-major
      order, where k0 is 0 when it starts a rectangle and the saved counter
      when it resumes one; it returns true exactly when it has finished
      tile ceil(w/16) * ceil(h/16) - 1, the last one. */
  lemma {:induction false} StepVisits(st: HexState, data: seq<byte>, at: nat, log: seq<Call>, x: int, y: int, w: nat, h: nat)
    requires Resumable(st, w, h) && at <= |data|
    ensures var vs := Visited(Begin(st, w, h), data, at, x, y, w, h);
            var k0 := if st.tiles == 0 then 0 else st.totalTiles - st.tiles;
            (Step(st, data, at, log, x, y, w, h).result == Ok(true) <==> k0 + |vs| == CeilDiv(w, 16) * CeilDiv(h, 16)) &&
            forall i :: 0 <= i < |vs| ==> CeilDiv(w, 16) > 0 && vs[i] == TileAt(x, y, w, h, CeilDiv(w, 16), k0 + i)
  {
    TilesVisit(Begin(st, w, h), data, at, log, x, y, w, h);
  }

  /** A subencoding above 30 is an error, and nothing is consumed. */
  lemma {:induction false} BadSubencoding(st: HexState, u: seq<byte>, t: Tile)
    requires WellFormed(st) && st.tiles > 0 && 1 <= t.w <= 16 && 1 <= t.h <= 16
    requires |u| >= 1 && u[0] > 30
    ensures TileStep(st, u, t).result.Err? && TileStep(st, u, t).consumed == 0
  {
  }

  /** A tile is consumed only whole: with its full byte count queued it is
      consumed exactly, otherwise not at all. */
  lemma {:induction false} TileWhole(st: HexState, u: seq<byte>, t: Tile)
    requires WellFormed(st) && st.tiles > 0 && 1 <= t.w <= 16 && 1 <= t.h <= 16
    ensures var o := TileStep(st, u, t);
            (o.result == Ok(true) <==> TileScan(u, t.w, t.h).Need? && TileScan(u, t.w, t.h).n <= |u|) &&
            (o.result == Ok(true) ==> o.consumed == TileScan(u, t.w, t.h).n)
  {
  }

  /** A raw tile takes tw*th*4 bytes, all drawn with alpha 255, and changes
      neither colour nor the tile buffer. */
  lemma {:induction false} RawTile(st: HexState, u: seq<byte>, t: Tile)
    requires WellFormed(st) && st.tiles > 0 && 1 <= t.w <= 16 && 1 <= t.h <= 16
    requires |u| >= 1 + t.w * t.h * 4 && u[0] <= 30 && Has(u[0], 1)
    ensures var o := TileStep(st, u, t);
            o.result == Ok(true) && o.consumed == 1 + t.w * t.h * 4 &&
            o.calls == [BlitImage(t.x, t.y, t.w, t.h, Opaque(u[1..1 + t.w * t.h * 4]))] &&
            o.state == st.(tiles := st.tiles - 1, last := u[0]) &&
            (forall k :: 0 <= k < t.w * t.h ==> o.calls[0].pixels[4 * k + 3] == 255)
  {
    var n := 1 + t.w * t.h * 4;
    assert u[..n][1..] == u[1..n];
  }

  /** A blank tile is skipped right after a raw one, else filled with the
      current background; either way the colours persist. */
  lemma {:induction false} BlankTile(st: HexState, u: seq<byte>, t: Tile)
    requires WellFormed(st) && st.tiles > 0 && 1 <= t.w <= 16 && 1 <= t.h <= 16
    requires |u| >= 1 && u[0] == 0
    ensures var o := TileStep(st, u, t);
            o.result == Ok(true) && o.consumed == 1 &&
            o.state == st.(tiles := st.tiles - 1, last := 0) &&
            o.calls == if Has(st.last, 1) then [] else [FillRect(t.x, t.y, t.w, t.h, st.bg)]
  {
  }

  /** Without their bits, the background and foreground of the previous
      tile are used again; with them, the colours are read in that order. */
  lemma {:induction false} ColoursPersist(st: HexState, u: seq<byte>, t: Tile)
    requires WellFormed(st) && st.tiles > 0 && 1 <= t.w <= 16 && 1 <= t.h <= 16
    requires |u| >= 1 && u[0] != 0 && !Has(u[0], 1)
    requires TileScan(u, t.w, t.h).Need? && TileScan(u, t.w, t.h).n <= |u|
    ensures var o := TileStep(st, u, t);
            var p := 1 + (if Has(u[0], 2) then 4 else 0);
            o.state.bg == (if Has(u[0], 2) then u[1..5] else st.bg) &&
            o.state.fg == (if Has(u[0], 4) then u[p..p + 4] else st.fg) &&
            o.state.tile == t &&
            o.calls == [BlitImage(t.x, t.y, t.w, t.h, o.state.buf[..Area(t.w, t.h) * 4])]
  {
    var n := TileScan(u, t.w, t.h).n;
    TileStepWhole(st, u, t);
    var v := u[..n];
    assert v[0] == u[0];
    var p := 1 + (if Has(u[0], 2) then 4 else 0);
    assert TileBg(st.bg, v) == (if Has(u[0], 2) then u[1..5] else st.bg);
    assert TileFg(st.fg, v) == (if Has(u[0], 4) then u[p..p + 4] else st.fg);
  }

  /** The tile buffer after one subrectangle, byte by byte: a pixel in the
      subrectangle (unclipped, rows wrapping at the tile width) holds the
      record's colour, or the foreground when the tile is not coloured. */
  lemma {:induction false} SubrectBytes(buf: seq<byte>, width: nat, rec: seq<byte>, coloured: bool, fg: seq<byte>, k: nat)
    requires |fg| == 4 && |rec| == (if coloured then 6 else 2) && |buf| == TileBufferSize && k < |buf|
    ensures var color := if coloured then rec[..4] else fg;
            var xy, wh := rec[|rec| - 2], rec[|rec| - 1];
            var sx, sw, sy, sh := Hi4(xy), Hi4(wh) + 1, Lo4(xy), Lo4(wh) + 1;
            SubrectPaint(buf, width, rec, coloured, fg)[k] ==
              if Covered(k / 4, width, sx, sw, sy, sy + sh)
              then (if k % 4 == 3 then 255 else color[k % 4]) else buf[k]
  {
    var xy, wh := rec[|rec| - 2], rec[|rec| - 1];
    var color := if coloured then rec[..4] else fg;
    var sx, sw, sy, sh := Hi4(xy), Hi4(wh) + 1, Lo4(xy), Lo4(wh) + 1;
    assert SubrectPaint(buf, width, rec, coloured, fg) == PaintRect(buf, width, sx, sx + sw, sy, sy + sh, color);
    PaintRectBytes(buf, width, sx, sw, sy, sy + sh, color, k);
  }

  /** A rectangle delivered in two parts, with a call returning false in
      between, draws and consumes what one call on all the bytes does. */
  lemma {:induction false} TilesResume(st: HexState, d1: seq<byte>, d2: seq<byte>, at: nat, log: seq<Call>,
                                       x: int, y: int, w: nat, h: nat)
    requires Resumable(st, w, h) && at <= |d1|
    requires Tiles(st, d1, at, log, x, y, w, h).result == Ok(false)
    ensures var o1 := Tiles(st, d1, at, log, x, y, w, h);
            Tiles(st, d1 + d2, at, log, x, y, w, h) == Tiles(o1.state, d1 + d2, o1.at, o1.log, x, y, w, h)
    decreases st.tiles
  {
    var t := CurrentTile(st, x, y, w, h);
    var a := TileStep(st, d1[at..], t);
    assert Tiles(st, d1, at, log, x, y, w, h) == TileThen(st, d1, at, log, x, y, w, h);
    if a.result == Ok(true) {
      assert (d1 + d2)[at..] == d1[at..] + d2;
      TileStepExtend(st, d1[at..], d2, t);
      assert Tiles(st, d1 + d2, at, log, x, y, w, h) == TileThen(st, d1 + d2, at, log, x, y, w, h);
      TilesResume(a.state, d1, d2, at + a.consumed, log + a.calls, x, y, w, h);
    }
  }

  /** Bytes after a finished rectangle are left for the next one. */
  lemma {:induction false} TilesDone(st: HexState, d1: seq<byte>, d2: seq<byte>, at: nat, log: seq<Call>,
                                     x: int, y: int, w: nat, h: nat)
    requires Resumable(st, w, h) && at <= |d1|
    requires Tiles(st, d1, at, log, x, y, w, h).result == Ok(true)
    ensures Tiles(st, d1 + d2, at, log, x, y, w, h) == Tiles(st, d1, at, log, x, y, w, h)
    decreases st.tiles
  {
    if st.tiles > 0 {
      var t := CurrentTile(st, x, y, w, h);
      var a := TileStep(st, d1[at..], t);
      assert Tiles(st, d1, at, log, x, y, w, h) == TileThen(st, d1, at, log, x, y, w, h);
      assert (d1 + d2)[at..] == d1[at..] + d2;
      TileStepExtend(st, d1[at..], d2, t);
      assert Tiles(st, d1 + d2, at, log, x, y, w, h) == TileThen(st, d1 + d2, at, log, x, y, w, h);
      TilesDone(a.state, d1, d2, at + a.consumed, log + a.calls, x, y, w, h);
    }
  }

  /** The loop only appends to the display log: what it does is the same
      whatever calls were made before it. */
  lemma {:induction false} TilesLog(st: HexState, data: seq<byte>, at: nat, log: seq<Call>, x: int, y: int, w: nat, h: nat)
    requires Resumable(st, w, h) && at <= |data|
    ensures var o, e := Tiles(st, data, at, log, x, y, w, h), Tiles(st, data, at, [], x, y, w, h);
            o.state == e.state && o.at == e.at && o.result == e.result && o.log == log + e.log
    decreases st.tiles
  {
    if st.tiles > 0 {
      var a := TileStep(st, data[at..], CurrentTile(st, x, y, w, h));
      assert Tiles(st, data, at, log, x, y, w, h) == TileThen(st, data, at, log, x, y, w, h);
      assert Tiles(st, data, at, [], x, y, w, h) == TileThen(st, data, at, [], x, y, w, h);
      if a.result == Ok(true) {
        var at2 := at + a.consumed;
        TilesLog(a.state, data, at2, log + a.calls, x, y, w, h);
        assert [] + a.calls == a.calls;
        TilesLog(a.state, data, at2, a.calls, x, y, w, h);
        var e2 := Tiles(a.state, data, at2, [], x, y, w, h);
        assert (log + a.calls) + e2.log == log + (a.calls + e2.log);
      }
    }
  }

  /** A whole tile stays the same tile when more bytes follow it. */
  lemma {:induction false} TileStepExtend(st: HexState, u1: seq<byte>, u2: seq<byte>, t: Tile)
    requires WellFormed(st) && st.tiles > 0 && 1 <= t.w <= 16 && 1 <= t.h <= 16
    requires TileStep(st, u1, t).result == Ok(true)
    ensures TileStep(st, u1 + u2, t) == TileStep(st, u1, t)
  {
    var n := TileScan(u1, t.w, t.h).n;
    assert TileScan(u1 + u2, t.w, t.h) == TileScan(u1, t.w, t.h) by {
      assert (u1 + u2)[0] == u1[0];
      if u1[0] <= 30 && !Has(u1[0], 1) && Has(u1[0], 8) {
        assert (u1 + u2)[CountOffset(u1[0])] == u1[CountOffset(u1[0])];
      }
    }
    assert (u1 + u2)[..n] == u1[..n];
  }

  /** With its whole byte count queued, a tile is applied to exactly those bytes. */
  lemma {:induction false} TileStepWhole(st: HexState, u: seq<byte>, t: Tile)
    requires WellFormed(st) && st.tiles > 0 && 1 <= t.w <= 16 && 1 <= t.h <= 16
    requires TileScan(u, t.w, t.h).Need? && TileScan(u, t.w, t.h).n <= |u|
    ensures var n := TileScan(u, t.w, t.h).n;
            TileScan(u[..n], t.w, t.h) == Need(n) && TileStep(st, u, t) == ApplyTile(st, u[..n], t)
  {
    TileScanPrefix(u, TileScan(u, t.w, t.h).n, t.w, t.h);
  }

  /** Past the count byte, the queue holds the tile's subrectangle records. */
  lemma {:induction false} SubrectRecords(v: seq<byte>, u: seq<byte>, tw: nat, th: nat)
    requires TileScan(v, tw, th) == Need(|v|) && !Has(v[0], 1) && Has(v[0], 8)
    requires v[CountOffset(v[0])..] <= u
    ensures var b := CountOffset(v[0]);
            var n := v[b] as nat * SubrectSize(v[0]);
            |u| >= 1 + n && u[0] == v[b] && v[b + 1..] <= u[1..] && |v[b + 1..]| == n
  {
    var b := CountOffset(v[0]);
    assert v[b..][0] == v[b];
    assert v[b + 1..] == v[b..][1..];
  }

  /** PaintSubrects reads only its first `k` records. */
  lemma {:induction false} PaintSubrectsPrefix(buf: seq<byte>, width: nat, s1: seq<byte>, s2: seq<byte>, k: nat,
                                               coloured: bool, fg: seq<byte>)
    requires |fg| == 4 && |s2| == k * (if coloured then 6 else 2) && s2 <= s1
    ensures PaintSubrects(buf, width, s1, k, coloured, fg) == PaintSubrects(buf, width, s2, k, coloured, fg)
    decreases k
  {
    if k > 0 {
      var size := if coloured then 6 else 2;
      assert s1[..size] == s2[..size];
      assert s2[size..] <= s1[size..];
      PaintSubrectsPrefix(SubrectPaint(buf, width, s2[..size], coloured, fg), width, s1[size..], s2[size..], k - 1, coloured, fg);
    }
  }

  /* ---------- The decoder object ---------- */

  class HextileDecoder {
    var tiles: nat
    var tilesX: nat
    var tilesY: nat
    var totalTiles: nat
    var lastSubencoding: byte
    const tileBuffer: array<byte>
    var background: seq<byte>
    var foreground: seq<byte>
    var tileX: int
    var tileY: int
    var tileW: int
    var tileH: int

    ghost predicate Valid()
      reads this
    {
      tileBuffer.Length == TileBufferSize && |background| == 4 && |foreground| == 4
    }

    /** The fields as a value. */
    ghost function State(): HexState
      reads this, tileBuffer
    {
      HexState(tiles, tilesX, tilesY, totalTiles, lastSubencoding, background, foreground,
               tileBuffer[..], Tile(tileX, tileY, tileW, tileH))
    }

    constructor()
      ensures Valid() && fresh(tileBuffer)
      ensures State() == HexState(0, 0, 0, 0, 0, [0, 0, 0, 0], [0, 0, 0, 0], Zeros(TileBufferSize), Tile(0, 0, 0, 0))
    {
      tiles, tilesX, tilesY, totalTiles := 0, 0, 0, 0;
      lastSubencoding := 0;
      background, foreground := [0, 0, 0, 0], [0, 0, 0, 0];
      tileX, tileY, tileW, tileH := 0, 0, 0, 0;
      tileBuffer := new byte[TileBufferSize](_ => 0);
      new;
      assert tileBuffer[..] == Zeros(TileBufferSize);
    }

    method DecodeRect(x: int, y: int, width: nat, height: nat, sock: Socket, display: Display)
      returns (r: Result<bool>)
      requires Valid() && sock.Valid() && Resumable(State(), width, height)
      modifies this, tileBuffer, sock, display
      ensures Valid() && sock.Valid() && sock.data == old(sock.data)
      ensures sock.sendQueue == old(sock.sendQueue) && sock.sent == old(sock.sent)
      ensures Step(old(State()), sock.data, old(sock.index), old(display.log), x, y, width, height) ==
              Run(State(), sock.index, display.log, r)
    {
      if tiles == 0 {
        tilesX := CeilDiv(width, 16);
        tilesY := CeilDiv(height, 16);
        totalTiles := tilesX * tilesY;
        tiles := totalTiles;
        assert totalTiles == TileCount(width, height);
      }
      assert State() == Begin(old(State()), width, height);
      r := DecodeTiles(x, y, width, height, sock, display);
    }

    /** The `while` loop of decodeRect. */
    method DecodeTiles(x: int, y: int, width: nat, height: nat, sock: Socket, display: Display)
      returns (r: Result<bool>)
      requires Valid() && sock.Valid() && Resumable(State(), width, height)
      modifies this, tileBuffer, sock, display
      ensures Valid() && sock.Valid() && sock.data == old(sock.data)
      ensures sock.sendQueue == old(sock.sendQueue) && sock.sent == old(sock.sent)
      ensures Tiles(old(State()), sock.data, old(sock.index), old(display.log), x, y, width, height) ==
              Run(State(), sock.index, display.log, r)
    {
      ghost var s0, i0, l0 := State(), sock.index, display.log;
      while tiles > 0
        invariant Valid() && sock.Valid() && Resumable(State(), width, height)
        invariant sock.data == old(sock.data) && sock.sendQueue == old(sock.sendQueue) && sock.sent == old(sock.sent)
        invariant Tiles(s0, sock.data, i0, l0, x, y, width, height) ==
                  Tiles(State(), sock.data, sock.index, display.log, x, y, width, height)
        decreases tiles
      {
        r := DecodeTile(x, y, width, height, sock, display);
        if r != Ok(true) {
          return;
        }
      }
      return Ok(true);
    }

    /** One pass of the loop body, as the loop sees it: a tile that is not
        complete ends the loop, a complete one leaves the rest of the loop
        to do. */
    method DecodeTile(x: int, y: int, width: nat, height: nat, sock: Socket, display: Display)
      returns (r: Result<bool>)
      requires Valid() && sock.Valid() && Resumable(State(), width, height) && tiles > 0
      modifies this, tileBuffer, sock, display
      ensures Valid() && sock.Valid() && sock.data == old(sock.data) && Resumable(State(), width, height)
      ensures sock.sendQueue == old(sock.sendQueue) && sock.sent == old(sock.sent)
      ensures r != Ok(true) ==>
                Tiles(old(State()), sock.data, old(sock.index), old(display.log), x, y, width, height) ==
                Run(State(), sock.index, display.log, r)
      ensures r == Ok(true) ==>
                tiles < old(tiles) &&
                Tiles(old(State()), sock.data, old(sock.index), old(display.log), x, y, width, height) ==
                Tiles(State(), sock.data, sock.index, display.log, x, y, width, height)
    {
      ghost var s, i, l := State(), sock.index, display.log;
      r := ReadTile(x, y, width, height, sock, display);
      assert Tiles(s, sock.data, i, l, x, y, width, height) == TileThen(s, sock.data, i, l, x, y, width, height);
      if r != Ok(true) {
        assert display.log == l + [] == l;
      }
    }

    /** One iteration of the `while` loop: the tile the counter points at. */
    method ReadTile(x: int, y: int, width: nat, height: nat, sock: Socket, display: Display)
      returns (r: Result<bool>)
      requires Valid() && sock.Valid() && Resumable(State(), width, height) && tiles > 0
      modifies this, tileBuffer, sock, display
      ensures Valid() && sock.Valid() && sock.data == old(sock.data)
      ensures sock.sendQueue == old(sock.sendQueue) && sock.sent == old(sock.sent)
      ensures var o := TileStep(old(State()), old(sock.Unread()), CurrentTile(old(State()), x, y, width, height));
              r == o.result && State() == o.state &&
              sock.index == old(sock.index) + o.consumed && display.log == old(display.log) + o.calls
    {
      var short := sock.Lacks(1);
      if short {
        return Ok(false);
      }
      var subencoding := sock.Peek8();
      if subencoding > 30 {
        return Err("Illegal hextile subencoding");
      }
      var t := TileGeometry(x, y, width, height);
      var bytes;
      short, bytes := TileBytes(subencoding, t.w, t.h, sock);
      if short {
        return Ok(false);
      }
      ghost var v := sock.Unread()[..bytes];
      TileStepWhole(State(), sock.Unread(), t);
      DrawTile(t, v, sock, display);
      return Ok(true);
    }

    /** The position and size of the tile the counter points at. */
    method TileGeometry(x: int, y: int, width: nat, height: nat) returns (t: Tile)
      requires Valid() && Resumable(State(), width, height) && tiles > 0
      ensures t == CurrentTile(State(), x, y, width, height)
    {
      var currTile := totalTiles - tiles;
      var tx := x + (currTile % tilesX) * 16;
      var ty := y + (currTile / tilesX) * 16;
      t := Tile(tx, ty, Min(16, (x + width) - tx), Min(16, (y + height) - ty));
    }

    /** The byte count of the tile at the front of the queue, with the
        waits that return false when it is not all there. */
    method TileBytes(subencoding: byte, tw: nat, th: nat, sock: Socket) returns (short: bool, bytes: nat)
      requires sock.Valid() && |sock.Unread()| >= 1 && subencoding == sock.Unread()[0] && subencoding <= 30
      ensures var scan := TileScan(sock.Unread(), tw, th);
              (short <==> scan.Short? || (scan.Need? && |sock.Unread()| < scan.n)) &&
              (!short ==> scan == Need(bytes))
    {
      bytes := 1;
      if Has(subencoding, 1) {
        bytes := bytes + tw * th * 4;
      } else {
        if Has(subencoding, 2) {
          bytes := bytes + 4;
        }
        if Has(subencoding, 4) {
          bytes := bytes + 4;
        }
        if Has(subencoding, 8) {
          bytes := bytes + 1;
          short := sock.Lacks(bytes);
          if short {
            return;
          }
          var peeked := sock.PeekBytes(bytes);
          var subrects := peeked[|peeked| - 1];
          if Has(subencoding, 16) {
            bytes := bytes + subrects as nat * (4 + 2);
          } else {
            bytes := bytes + subrects as nat * 2;
          }
        }
      }
      short := sock.Lacks(bytes);
    }

    /** The part of the loop body that runs once the whole tile `v` is queued. */
    method DrawTile(t: Tile, ghost v: seq<byte>, sock: Socket, display: Display)
      requires Valid() && sock.Valid() && tiles > 0 && 1 <= t.w <= 16 && 1 <= t.h <= 16
      requires TileScan(v, t.w, t.h) == Need(|v|) && v <= sock.Unread()
      modifies this, tileBuffer, sock, display
      ensures Valid() && sock.Valid() && sock.data == old(sock.data)
      ensures sock.sendQueue == old(sock.sendQueue) && sock.sent == old(sock.sent)
      ensures var o := ApplyTile(old(State()), v, t);
              State() == o.state && sock.index == old(sock.index) + |v| && display.log == old(display.log) + o.calls
    {
      var subencoding := sock.Shift8();
      if subencoding == 0 {
        if Has(lastSubencoding, 1) {
          // a blank tile right after a raw one is ignored
        } else {
          display.FillRect(t.x, t.y, t.w, t.h, background);
        }
      } else if Has(subencoding, 1) {
        assert v[1..] == sock.Unread()[..t.w * t.h * 4];
        var data := sock.ShiftBytes(t.w * t.h * 4);
        data := MakeOpaque(data, t.w * t.h);
        display.BlitImage(t.x, t.y, t.w, t.h, data);
      } else {
        DrawPainted(t, subencoding, v, sock, display);
      }
      lastSubencoding := subencoding;
      tiles := tiles - 1;
    }

    /** The last branch of the loop body, past the subencoding byte. */
    method DrawPainted(t: Tile, subencoding: byte, ghost v: seq<byte>, sock: Socket, display: Display)
      requires Valid() && sock.Valid() && 1 <= t.w <= 16 && 1 <= t.h <= 16
      requires TileScan(v, t.w, t.h) == Need(|v|) && subencoding == v[0] && v[0] != 0 && !Has(v[0], 1)
      requires v[1..] <= sock.Unread()
      modifies this, tileBuffer, sock, display
      ensures Valid() && sock.Valid() && sock.data == old(sock.data)
      ensures sock.sendQueue == old(sock.sendQueue) && sock.sent == old(sock.sent)
      ensures var p := PaintTile(old(State()), v, t);
              State() == p && sock.index == old(sock.index) + |v| - 1 &&
              display.log == old(display.log) + [BlitImage(t.x, t.y, t.w, t.h, p.buf[..Area(t.w, t.h) * 4])]
    {
      ReadColours(subencoding, v, sock);
      StartTile(t.x, t.y, t.w, t.h, background);
      TileSubrects(subencoding, v, sock);
      FinishTile(display);
    }

    /** The count byte and the records, when bit 0x08 is set. */
    method TileSubrects(subencoding: byte, ghost v: seq<byte>, sock: Socket)
      requires Valid() && sock.Valid() && tileW >= 0 && tileH >= 0 && |v| >= 1 && subencoding == v[0]
      requires TileScan(v, tileW, tileH) == Need(|v|) && v[0] != 0 && !Has(v[0], 1)
      requires v[CountOffset(subencoding)..] <= sock.Unread()
      modifies tileBuffer, sock
      ensures sock.Valid() && sock.data == old(sock.data)
      ensures sock.sendQueue == old(sock.sendQueue) && sock.sent == old(sock.sent)
      ensures sock.index == old(sock.index) + |v| - CountOffset(subencoding)
      ensures var b := CountOffset(subencoding);
              tileBuffer[..] ==
              if Has(subencoding, 8)
              then PaintSubrects(old(tileBuffer[..]), tileW, v[b + 1..], v[b] as nat, Has(subencoding, 16), foreground)
              else old(tileBuffer[..])
    {
      if Has(subencoding, 8) {
        ghost var u := sock.Unread();
        SubrectRecords(v, u, tileW, tileH);
        var subrects := sock.Shift8();
        DrawSubrects(subrects as nat, Has(subencoding, 16), sock);
        ghost var b := CountOffset(subencoding);
        PaintSubrectsPrefix(old(tileBuffer[..]), tileW, u[1..], v[b + 1..], subrects as nat, Has(subencoding, 16), foreground);
      }
    }

    /** The optional background and foreground of a tile. */
    method ReadColours(subencoding: byte, ghost v: seq<byte>, sock: Socket)
      requires Valid() && sock.Valid() && |v| >= 1 && |v| >= CountOffset(v[0]) && subencoding == v[0]
      requires v[1..] <= sock.Unread()
      modifies this`background, this`foreground, sock
      ensures Valid() && sock.Valid() && sock.data == old(sock.data)
      ensures sock.sendQueue == old(sock.sendQueue) && sock.sent == old(sock.sent)
      ensures background == TileBg(old(background), v) && foreground == TileFg(old(foreground), v)
      ensures sock.index == old(sock.index) + CountOffset(subencoding) - 1
      ensures v[CountOffset(subencoding)..] <= sock.Unread()
    {
      ghost var u := sock.Unread();
      if Has(subencoding, 2) {
        assert u[..4] == v[1..5];
        background := sock.ShiftBytes(4);
      }
      ghost var p := 1 + (if Has(subencoding, 2) then 4 else 0);
      assert sock.Unread() == u[p - 1..];
      if Has(subencoding, 4) {
        assert u[p - 1..][..4] == v[p..p + 4];
        foreground := sock.ShiftBytes(4);
      }
      assert sock.Unread() == u[CountOffset(subencoding) - 1..];
    }

    /** The raw tile's loop: the alpha byte of each of the first `pixels`
        pixels set to 255. */
    static method MakeOpaque(data: seq<byte>, pixels: nat) returns (r: seq<byte>)
      requires |data| == pixels * 4
      ensures r == Opaque(data)
    {
      r := data;
      var i := 0;
      while i < pixels
        invariant 0 <= i <= pixels && |r| == |data|
        invariant forall k :: 0 <= k < |r| ==> r[k] == if k % 4 == 3 && k < 4 * i then 255 else data[k]
      {
        r := r[i * 4 + 3 := 255];
        i := i + 1;
      }
    }

    /** One pixel of the tile buffer; bytes past its end are not written. */
    method PutPixel(p: nat, color: seq<byte>)
      requires |color| >= 3
      modifies tileBuffer
      ensures tileBuffer[..] == SetPixel(old(tileBuffer[..]), p, color)
    {
      if p < tileBuffer.Length {
        tileBuffer[p] := color[0];
      }
      if p + 1 < tileBuffer.Length {
        tileBuffer[p + 1] := color[1];
      }
      if p + 2 < tileBuffer.Length {
        tileBuffer[p + 2] := color[2];
      }
      if p + 3 < tileBuffer.Length {
        tileBuffer[p + 3] := 255;
      }
    }

    /** _startTile: remember the tile and paint its pixels with `color`. */
    method StartTile(x: int, y: int, width: nat, height: nat, color: seq<byte>)
      requires Valid() && |color| == 4
      modifies this`tileX, this`tileY, this`tileW, this`tileH, tileBuffer
      ensures Valid() && tileX == x && tileY == y && tileW == width && tileH == height
      ensures tileBuffer[..] == StartBuf(old(tileBuffer[..]), width * height, color)
    {
      tileX, tileY, tileW, tileH := x, y, width, height;
      ghost var b0 := tileBuffer[..];
      var i := 0;
      ghost var n: nat := 0;
      while i < width * height * 4
        invariant i == 4 * n && n <= width * height && Valid()
        invariant tileX == x && tileY == y && tileW == width && tileH == height
        invariant tileBuffer[..] == StartBuf(b0, n, color)
      {
        PutPixel(i, color);
        i, n := i + 4, n + 1;
      }
    }

    /** _subTile: rows `y` to `y + h - 1`, columns `x` to `x + w - 1`. */
    method SubTile(x: nat, y: nat, w: nat, h: nat, color: seq<byte>)
      requires |color| >= 3
      modifies tileBuffer
      ensures tileBuffer[..] == PaintRect(old(tileBuffer[..]), tileW, x, x + w, y, y + h, color)
    {
      var xend, yend := x + w, y + h;
      var width := tileW;
      ghost var b0 := tileBuffer[..];
      var j := y;
      while j < yend
        invariant y <= j <= yend
        invariant tileBuffer[..] == PaintRect(b0, width, x, xend, y, j, color)
      {
        ghost var row0 := tileBuffer[..];
        var i := x;
        while i < xend
          invariant x <= i <= xend
          invariant tileBuffer[..] == PaintRow(row0, width, j, x, i, color)
        {
          var p := (i + j * width) * 4;
          if p >= 0 {
            PutPixel(p, color);
          } else {
            assert SetPixel(tileBuffer[..], |tileBuffer[..]|, color) == tileBuffer[..];
          }
          i := i + 1;
        }
        j := j + 1;
      }
    }

    /** One subrectangle record: an optional colour, the position byte and
        the size byte. */
    method DrawSubrect(coloured: bool, sock: Socket)
      requires Valid() && sock.Valid() && tileW >= 0
      requires |sock.Unread()| >= (if coloured then 6 else 2)
      modifies tileBuffer, sock
      ensures sock.Valid() && sock.data == old(sock.data)
      ensures sock.sendQueue == old(sock.sendQueue) && sock.sent == old(sock.sent)
      ensures sock.index == old(sock.index) + (if coloured then 6 else 2)
      ensures sock.Unread() == old(sock.Unread())[if coloured then 6 else 2..]
      ensures tileBuffer[..] ==
              SubrectPaint(old(tileBuffer[..]), tileW, old(sock.Unread())[..if coloured then 6 else 2], coloured, foreground)
    {
      ghost var rec := sock.Unread()[..if coloured then 6 else 2];
      var color;
      if coloured {
        color := sock.ShiftBytes(4);
      } else {
        color := foreground;
      }
      var xy := sock.Shift8();
      var wh := sock.Shift8();
      assert xy == rec[|rec| - 2] && wh == rec[|rec| - 1];
      assert color == if coloured then rec[..4] else foreground;
      var sx, sy := xy as nat / 16, xy as nat % 16;
      var sw, sh := wh as nat / 16 + 1, wh as nat % 16 + 1;
      assert SubrectPaint(tileBuffer[..], tileW, rec, coloured, foreground) ==
             PaintRect(tileBuffer[..], tileW, sx, sx + sw, sy, sy + sh, color);
      SubTile(sx, sy, sw, sh, color);
    }

    /** The subrectangle loop of decodeRect. */
    method DrawSubrects(n: nat, coloured: bool, sock: Socket)
      requires Valid() && sock.Valid() && tileW >= 0
      requires |sock.Unread()| >= n * (if coloured then 6 else 2)
      modifies tileBuffer, sock
      ensures sock.Valid() && sock.data == old(sock.data)
      ensures sock.sendQueue == old(sock.sendQueue) && sock.sent == old(sock.sent)
      ensures sock.index == old(sock.index) + n * (if coloured then 6 else 2)
      ensures tileBuffer[..] == PaintSubrects(old(tileBuffer[..]), tileW, old(sock.Unread()), n, coloured, foreground)
    {
      var size := if coloured then 6 else 2;
      ghost var u0 := sock.Unread();
      ghost var pos: nat := 0;
      var s := 0;
      while s < n
        invariant 0 <= s <= n
        invariant coloured ==> size == 6 && pos == 6 * s && |u0| >= 6 * n
        invariant !coloured ==> size == 2 && pos == 2 * s && |u0| >= 2 * n
        invariant sock.Valid() && sock.data == old(sock.data)
        invariant sock.sendQueue == old(sock.sendQueue) && sock.sent == old(sock.sent)
        invariant sock.index == old(sock.index) + pos && sock.Unread() == u0[pos..]
        invariant PaintSubrects(old(tileBuffer[..]), tileW, u0, n, coloured, foreground) ==
                  PaintSubrects(tileBuffer[..], tileW, u0[pos..], n - s, coloured, foreground)
      {
        DrawSubrect(coloured, sock);
        assert u0[pos..][size..] == u0[pos + size..];
        s, pos := s + 1, pos + size;
      }
    }

    /** _finishTile: the tile buffer's pixels drawn at the tile. */
    method FinishTile(display: Display)
      requires Valid() && 0 <= tileW <= 16 && 0 <= tileH <= 16
      modifies display
      ensures display.log == old(display.log) + [BlitImage(tileX, tileY, tileW, tileH, tileBuffer[..Area(tileW, tileH) * 4])]
    {
      display.BlitImage(tileX, tileY, tileW, tileH, tileBuffer[..Area(tileW, tileH) * 4]);
    }
  }
}
