/** The ZRLE encoding: a 32-bit length, then that many bytes of one zlib
    stream that lives as long as the connection. Decompressed, a rectangle
    is a sequence of 64x64 tiles in row-major order, the last column and
    row clipped to the rectangle. Each tile starts with a subencoding
    byte: raw pixels, one solid colour, a palette of 2 to 16 colours with
    packed indices, plain runs, or runs over a palette of 2 to 127
    colours. Pixels travel as RGB triples and are widened to RGBA with
    alpha 255 in a 64x64 pixel buffer that palettes share and that keeps
    its contents from tile to tile. */
module ZRLE {
  import opened Bytes
  import opened Display
  import opened Websock
  import opened Decoder
  import opened Inflator

  const TileSide: nat := 64
  /** Bytes of the pixel buffer and of the tile buffer: one tile of RGBA. */
  const BufferBytes: nat := 64 * 64 * 4
  const Incomplete := "Incomplete zlib block"
  const UnknownSubencoding := "Unknown subencoding"
  const TooBigIndex := "Too big index in palette"
  const TooBigLength := "Too big rle length in palette mode"

  /** The decompressed bytes not yet handed out, and the pixel buffer. */
  datatype M = M(rest: seq<byte>, pb: seq<byte>)

  /** What a reader of the decompressed stream leaves, and what it returns. */
  datatype Z<T> = Z(m: M, v: Result<T>)

  /** `inflate(1)[0]`: the next decompressed byte; an empty stream throws
      and stays as it is. */
  function NextByte(m: M): (r: Z<byte>)
    ensures r.m.pb == m.pb
    ensures r.v.Ok? <==> |m.rest| > 0
    ensures r.v.Ok? ==> r.v.value == m.rest[0] && r.m.rest == m.rest[1..]
    ensures r.v.Err? ==> r.m == m && r.v.msg == Incomplete
  {
    if |m.rest| == 0 then Z(m, Err(Incomplete)) else Z(m.(rest := m.rest[1..]), Ok(m.rest[0]))
  }

  // ----- Pixels -----

  /** RGB triples widened to RGBA pixels with alpha 255. */
  function Expand(s: seq<byte>): (r: seq<byte>)
    ensures |r| == |s| / 3 * 4
  {
    seq(|s| / 3 * 4, i requires 0 <= i < |s| / 3 * 4 => if i % 4 == 3 then 255 else s[i / 4 * 3 + i % 4])
  }

  /** Pixel `i` of the widened triples is triple `i` with alpha 255. */
  lemma {:induction false} ExpandAt(s: seq<byte>, i: nat)
    requires i < |s| / 3
    ensures Expand(s)[4 * i..4 * i + 4] == s[3 * i..3 * i + 3] + [255]
  {
    forall k | 4 * i <= k < 4 * i + 4
      ensures Expand(s)[k] == (s[3 * i..3 * i + 3] + [255])[k - 4 * i]
    {
      assert k / 4 == i && k % 4 == k - 4 * i;
    }
  }

  /** `_readPixels(n)`: `3n` decompressed bytes widened into the first `n`
      pixels of the pixel buffer. The inflate comes first, so a short
      stream throws before the buffer is touched. */
  function ReadPixels(m: M, n: nat): (r: Z<()>)
    requires |m.pb| == BufferBytes && n <= 4096
    ensures |r.m.pb| == BufferBytes
    ensures r.v.Ok? <==> 3 * n <= |m.rest|
    ensures r.v.Ok? ==> r.m.rest == m.rest[3 * n..]
    ensures r.v.Err? ==> r == Z(m, Err(Incomplete))
  {
    if |m.rest| < 3 * n then Z(m, Err(Incomplete))
    else Z(M(m.rest[3 * n..], Expand(m.rest[..3 * n]) + m.pb[4 * n..]), Ok(()))
  }

  /** After `_readPixels(n)`, pixel `i < n` of the buffer is the `i`-th
      triple with alpha 255, and the rest of the buffer is unchanged. */
  lemma {:induction false} ReadPixelsRgba(m: M, n: nat, i: nat)
    requires |m.pb| == BufferBytes && n <= 4096 && ReadPixels(m, n).v.Ok? && i < n
    ensures ReadPixels(m, n).m.pb[4 * i..4 * i + 4] == m.rest[3 * i..3 * i + 3] + [255]
    ensures ReadPixels(m, n).m.pb[4 * n..] == m.pb[4 * n..]
  {
    var e := Expand(m.rest[..3 * n]);
    ExpandAt(m.rest[..3 * n], i);
    assert m.rest[..3 * n][3 * i..3 * i + 3] == m.rest[3 * i..3 * i + 3];
    assert (e + m.pb[4 * n..])[4 * i..4 * i + 4] == e[4 * i..4 * i + 4];
  }

  /** Entry `i` of a palette held in the pixel buffer. */
  function Colour(pb: seq<byte>, i: nat): (c: seq<byte>)
    requires 4 * i + 4 <= |pb|
    ensures |c| == 4
  {
    pb[4 * i..4 * i + 4]
  }

  /** A run: `k` copies of one RGBA pixel. */
  function Repeat(c: seq<byte>, k: nat): (r: seq<byte>)
    requires |c| == 4
    ensures |r| == 4 * k
  {
    if k == 0 then [] else Repeat(c, k - 1) + c
  }

  /** Every pixel of `s` is fully opaque: its alpha byte is 255. */
  ghost predicate Opaque(s: seq<byte>)
    decreases |s|
  {
    |s| < 4 || (s[|s| - 1] == 255 && Opaque(s[..|s| - 4]))
  }

  /** Pixel `c` is one of entries `0..last` of the palette `pb`. */
  ghost predicate IsEntry(c: seq<byte>, pb: seq<byte>, last: nat)
    requires 4 * last + 4 <= |pb|
  {
    Colour(pb, last) == c || (last > 0 && IsEntry(c, pb, last - 1))
  }

  /** Entry `i` is one of entries `0..last` when `i <= last`. */
  lemma {:induction false} IsEntryOf(pb: seq<byte>, last: nat, i: nat)
    requires 4 * last + 4 <= |pb| && i <= last
    ensures IsEntry(Colour(pb, i), pb, last)
    decreases last
  {
    if i < last {
      IsEntryOf(pb, last - 1, i);
    }
  }

  /** Every pixel of `s` is one of entries `0..last` of the palette `pb`. */
  ghost predicate FromPalette(s: seq<byte>, pb: seq<byte>, last: nat)
    requires 4 * last + 4 <= |pb|
    decreases |s|
  {
    |s| < 4 || (IsEntry(s[|s| - 4..], pb, last) && FromPalette(s[..|s| - 4], pb, last))
  }

  // ----- Run lengths -----

  /** `_readRLELength`, from the running sum `acc`: bytes are added up for
      as long as they are 255, and the total is one more than the sum. */
  function RunLength(m: M, acc: nat): (r: Z<nat>)
    ensures r.m.pb == m.pb && |r.m.rest| <= |m.rest|
    ensures r.v.Ok? ==> |r.m.rest| < |m.rest| && r.v.value > acc
    ensures r.v.Err? ==> r.m.rest == [] && r.v.msg == Incomplete
    decreases |m.rest|
  {
    if |m.rest| == 0 then Z(m, Err(Incomplete))
    else if m.rest[0] == 255 then RunLength(m.(rest := m.rest[1..]), acc + 255)
    else Z(m.(rest := m.rest[1..]), Ok(acc + m.rest[0] as nat + 1))
  }

  /** A run length consumes a prefix of the stream: what is left is a
      suffix of it. */
  lemma {:induction false} RunLengthRest(m: M, acc: nat)
    ensures var r := RunLength(m, acc); r.m.rest == m.rest[|m.rest| - |r.m.rest|..]
    decreases |m.rest|
  {
    if |m.rest| > 0 && m.rest[0] == 255 {
      var m1 := m.(rest := m.rest[1..]);
      RunLengthRest(m1, acc + 255);
      var r := RunLength(m1, acc + 255);
      assert m1.rest[|m1.rest| - |r.m.rest|..] == m.rest[|m.rest| - |r.m.rest|..];
    }
  }

  /** A run length ends at the first byte that is not 255: `k - 1` bytes of
      255 and a last byte `b` give `acc + 255 * (k - 1) + b + 1`. A stream
      that holds only bytes of 255 throws once it is used up. */
  lemma {:induction false} RunLengthSum(m: M, acc: nat)
    ensures var r := RunLength(m, acc);
            var k := |m.rest| - |r.m.rest|;
            (r.v.Ok? ==> 1 <= k && (forall i :: 0 <= i < k - 1 ==> m.rest[i] == 255) && m.rest[k - 1] != 255 &&
                         r.v.value == acc + 255 * (k - 1) + m.rest[k - 1] as nat + 1) &&
            (r.v.Err? <==> forall i :: 0 <= i < |m.rest| ==> m.rest[i] == 255)
  {
    RunLengthEnds(m, acc);
    RunLengthThrows(m, acc);
  }

  lemma {:induction false} RunLengthEnds(m: M, acc: nat)
    ensures RunLengthEnd(m, acc, RunLength(m, acc))
    decreases |m.rest|
  {
    if |m.rest| > 0 && m.rest[0] == 255 {
      var m1 := m.(rest := m.rest[1..]);
      RunLengthEnds(m1, acc + 255);
      RunLengthEndStep(m, acc, RunLength(m1, acc + 255));
    }
  }

  /** What `RunLengthSum` says of a successful result `r`. */
  ghost predicate RunLengthEnd(m: M, acc: nat, r: Z<nat>)
    requires |r.m.rest| <= |m.rest|
  {
    var k := |m.rest| - |r.m.rest|;
    r.v.Ok? ==> 1 <= k && (forall i :: 0 <= i < k - 1 ==> m.rest[i] == 255) && m.rest[k - 1] != 255 &&
                r.v.value == acc + 255 * (k - 1) + m.rest[k - 1] as nat + 1
  }

  lemma {:induction false} RunLengthEndStep(m: M, acc: nat, r: Z<nat>)
    requires |m.rest| > 0 && m.rest[0] == 255 && |r.m.rest| <= |m.rest| - 1
    requires RunLengthEnd(m.(rest := m.rest[1..]), acc + 255, r)
    ensures RunLengthEnd(m, acc, r)
  {
    var m1 := m.(rest := m.rest[1..]);
    var k := |m.rest| - |r.m.rest|;
    if r.v.Ok? {
      forall i | 0 <= i < k - 1
        ensures m.rest[i] == 255
      {
        if i > 0 {
          assert m.rest[i] == m1.rest[i - 1];
        }
      }
      assert m.rest[k - 1] == m1.rest[k - 2];
    }
  }

  lemma {:induction false} RunLengthThrows(m: M, acc: nat)
    ensures RunLength(m, acc).v.Err? <==> forall i :: 0 <= i < |m.rest| ==> m.rest[i] == 255
    decreases |m.rest|
  {
    if |m.rest| > 0 && m.rest[0] == 255 {
      var m1 := m.(rest := m.rest[1..]);
      RunLengthThrows(m1, acc + 255);
      assert RunLength(m, acc) == RunLength(m1, acc + 255);
      if forall i :: 0 <= i < |m1.rest| ==> m1.rest[i] == 255 {
        forall i | 0 <= i < |m.rest|
          ensures m.rest[i] == 255
        {
          if i > 0 {
            assert m.rest[i] == m1.rest[i - 1];
          }
        }
      } else {
        var j :| 0 <= j < |m1.rest| && m1.rest[j] != 255;
        assert m.rest[j + 1] != 255;
      }
    }
  }

  /** Two bytes of 255 and a 10 make a run of 255 + 255 + 10 + 1 = 521. */
  lemma {:induction false} RunLengthExample(m: M)
    requires |m.rest| >= 3 && m.rest[..3] == [255, 255, 10]
    ensures RunLength(m, 0) == Z(m.(rest := m.rest[3..]), Ok(521))
  {
    assert m.rest[0] == 255 && m.rest[1] == 255 && m.rest[2] == 10;
    var m1 := m.(rest := m.rest[1..]);
    var m2 := m1.(rest := m1.rest[1..]);
    assert m2.rest[0] == 10;
    assert m2.rest[1..] == m.rest[3..];
    assert RunLength(m, 0) == RunLength(m1, 255);
    assert RunLength(m1, 255) == RunLength(m2, 510);
    assert RunLength(m2, 510) == Z(m2.(rest := m2.rest[1..]), Ok(521));
  }

  // ----- Packed palette tiles -----

  /** `_getBitsPerPixelInPalette`: index width for a palette of `ps` entries. */
  function Bpp(ps: nat): (r: nat)
    ensures r == 1 || r == 2 || r == 4
  {
    if ps <= 2 then 1
    else if ps <= 4 then 2
    else if ps <= 16 then 4
    else 4
  }

  /** The index width is the smallest of 1, 2 and 4 bits that can name
      every entry of a palette of 1 to 16 colours. */
  lemma {:induction false} BppCovers(ps: nat)
    requires 1 <= ps <= 16
    ensures ps <= Pow2(Bpp(ps))
    ensures Bpp(ps) > 1 ==> ps > Pow2(1)
    ensures Bpp(ps) > 2 ==> ps > Pow2(2)
  {
    assert Pow2(1) == 2 && Pow2(2) == 4;
    assert Pow2(4) == 2 * Pow2(3) == 16;
  }

  /** `n` blocks of `k` bytes, a block at a time. */
  function Times(n: nat, k: nat): nat
  {
    if n == 0 then 0 else Times(n - 1, k) + k
  }

  lemma {:induction false} TimesNext(n: nat, k: nat)
    ensures Times(n + 1, k) == Times(n, k) + k
  {
  }

  /** `n` blocks of `k` are `n * k` bytes. */
  lemma {:induction false} TimesIs(n: nat, k: nat)
    ensures Times(n, k) == n * k
  {
    if n > 0 {
      TimesIs(n - 1, k);
      MulPred(n, k);
    }
  }

  /** Fewer blocks of one size are fewer bytes. */
  lemma {:induction false} TimesBelow(a: nat, b: nat, k: nat)
    requires Times(a, k) < Times(b, k)
    ensures a < b
  {
    if b <= a {
      TimesMono(b, a, k);
    }
  }

  lemma {:induction false} TimesMono(a: nat, b: nat, k: nat)
    requires a <= b
    ensures Times(a, k) <= Times(b, k)
  {
    TimesIs(a, k);
    TimesIs(b, k);
    MulLe(a, b, k);
  }

  /** A tile of at most 64 by 64 pixels fits the tile buffer. */
  lemma {:induction false} TileFits(tw: nat, th: nat)
    requires tw <= 64 && th <= 64
    ensures Times(th, tw) <= 4096 && Times(th, 4 * tw) <= BufferBytes
  {
    TimesIs(th, tw);
    TimesIs(th, 4 * tw);
    MulLe(th, 64, tw);
    MulLe(tw, 64, 64);
  }

  /** Whole blocks of `k` in `n`, taken off one at a time. */
  function Quot(n: nat, k: nat): nat
    requires k > 0
    decreases n
  {
    if n < k then 0 else 1 + Quot(n - k, k)
  }

  /** What is left of `n` once its whole blocks of `k` are taken off. */
  function Rem(n: nat, k: nat): (r: nat)
    requires k > 0
    ensures r < k
    decreases n
  {
    if n < k then n else Rem(n - k, k)
  }

  /** `q` blocks of `k` and `r < k` more are block `q`, offset `r`. */
  lemma {:induction false} QuotRemOf(q: nat, k: nat, r: nat)
    requires r < k
    ensures Quot(Times(q, k) + r, k) == q && Rem(Times(q, k) + r, k) == r
  {
    if q > 0 {
      QuotRemOf(q - 1, k, r);
    }
  }

  /** Blocks and remainder put `n` back together; they are `n / k` and `n % k`. */
  lemma {:induction false} QuotRemIs(n: nat, k: nat)
    requires k > 0
    ensures n == Times(Quot(n, k), k) + Rem(n, k)
    ensures Quot(n, k) == n / k && Rem(n, k) == n % k
    decreases n
  {
    if n >= k {
      QuotRemIs(n - k, k);
    }
    ModUnique(n, k, Quot(n, k), Rem(n, k));
  }

  /** An offset before block `m` lies in one of the first `m` blocks. */
  lemma {:induction false} QuotBelow(c: nat, k: nat, m: nat)
    requires k > 0 && c < Times(m, k)
    ensures Quot(c, k) < m
    decreases c
  {
    if c >= k {
      QuotBelow(c - k, k, m - 1);
    }
  }

  /** Indices of `bpp` bits held by one byte. */
  function PerByte(bpp: nat): (k: nat)
    requires bpp == 1 || bpp == 2 || bpp == 4
    ensures k >= 2
  {
    if bpp == 1 then 8 else if bpp == 2 then 4 else 2
  }

  /** Right shift of index `slot` of a byte, the first index in the top
      bits; one slot past the last it is negative, the source's cue to
      read the next byte. */
  function Shift(bpp: nat, slot: nat): (s: int)
    requires bpp == 1 || bpp == 2 || bpp == 4
    ensures slot < PerByte(bpp) ==> 0 <= s < 8
    ensures slot == PerByte(bpp) ==> s < 0
  {
    if bpp == 1 then 7 - slot else if bpp == 2 then 6 - 2 * slot else 4 - 4 * slot
  }

  /** A byte holds `8 / bpp` indices; the shift starts at `8 - bpp` and
      goes down by `bpp` per index. */
  lemma {:induction false} ShiftIs(bpp: nat, slot: nat)
    requires bpp == 1 || bpp == 2 || bpp == 4
    ensures PerByte(bpp) == 8 / bpp
    ensures Shift(bpp, slot) == 8 - bpp * (slot + 1)
  {
    if bpp == 1 {
    } else if bpp == 2 {
    } else {
    }
  }

  /** Bytes of a packed row of `n` indices, `k` to a byte. */
  function RowBytesOf(n: nat, k: nat): (r: nat)
    requires k > 0
    ensures Times(r, k) >= n && (n > 0 ==> r >= 1 && Times(r - 1, k) < n)
    decreases n
  {
    if n == 0 then 0 else if n <= k then 1 else 1 + RowBytesOf(n - k, k)
  }

  /** Bytes of one packed row: every row starts on a fresh byte. */
  function RowBytes(tw: nat, bpp: nat): (n: nat)
    requires bpp == 1 || bpp == 2 || bpp == 4
  {
    RowBytesOf(tw, PerByte(bpp))
  }

  /** A row takes the `tw / k` bytes of the source's loop, rounded up. */
  lemma {:induction false} RowBytesIs(tw: nat, bpp: nat)
    requires bpp == 1 || bpp == 2 || bpp == 4
    ensures RowBytes(tw, bpp) == CeilDiv(tw, PerByte(bpp))
  {
    var k := PerByte(bpp);
    var r := RowBytes(tw, bpp);
    if tw > 0 {
      TimesIs(r, k);
      TimesIs(r - 1, k);
      CeilDivUnique(tw, k, r);
    }
  }

  /** `q` is the ceiling of `n / d` when `q` blocks of `d` cover `n` and `q - 1` do not. */
  lemma {:induction false} CeilDivUnique(n: nat, d: nat, q: nat)
    requires d > 0 && q >= 1 && q * d >= n && (q - 1) * d < n
    ensures CeilDiv(n, d) == q
  {
    var r := CeilDiv(n, d);
    if r < q {
      MulLe(r, q - 1, d);
    } else if r > q {
      MulLe(q, r - 1, d);
    }
  }

  /** `x >> s`, one halving per bit. */
  function ShiftRight(x: nat, s: nat): nat
  {
    if s == 0 then x else ShiftRight(x / 2, s - 1)
  }

  /** Dividing by `a` and then by `b` is dividing by `a * b`. */
  lemma {:induction false} DivDiv(x: nat, a: nat, b: nat)
    requires a > 0 && b > 0
    ensures x / a / b == x / (a * b)
  {
    var q, r1 := x / a, x % a;
    var q2, r2 := q / b, q % b;
    MulLe(r2, b - 1, a);
    MulPred(b, a);
    assert x == (a * b) * q2 + (a * r2 + r1);
    ModUnique(x, a * b, q2, a * r2 + r1);
  }

  /** `s` halvings divide by `2^s`. */
  lemma {:induction false} ShiftRightIs(x: nat, s: nat)
    ensures ShiftRight(x, s) == x / Pow2(s)
  {
    if s > 0 {
      ShiftRightIs(x / 2, s - 1);
      DivDiv(x, 2, Pow2(s - 1));
    }
  }

  /** `(byte >> shift) & mask`: the `bpp` bits of `b` above bit `shift`. */
  function Unpack(b: byte, shift: nat, bpp: nat): (r: nat)
    requires bpp == 1 || bpp == 2 || bpp == 4
    ensures r < 16
  {
    var v := ShiftRight(b as nat, shift);
    if bpp == 1 then v % 2 else if bpp == 2 then v % 4 else v % 16
  }

  /** The mask keeps `bpp` bits: `Unpack` is `(b / 2^shift) % 2^bpp`, an
      index into a palette of at most `2^bpp` entries. */
  lemma {:induction false} UnpackIs(b: byte, shift: nat, bpp: nat)
    requires bpp == 1 || bpp == 2 || bpp == 4
    ensures Unpack(b, shift, bpp) == (b as nat / Pow2(shift)) % Pow2(bpp)
    ensures Unpack(b, shift, bpp) < Pow2(bpp)
  {
    ShiftRightIs(b as nat, shift);
    assert Pow2(1) == 2 && Pow2(2) == 4;
    assert Pow2(4) == 2 * Pow2(3) == 16;
  }

  /** Index `c` of a row packed most significant bits first: the first
      byte holds indices `0` to `k - 1`, the rest of the row the others. */
  function PackedIndex(row: seq<byte>, bpp: nat, c: nat): (r: nat)
    requires bpp == 1 || bpp == 2 || bpp == 4
    requires c < Times(|row|, PerByte(bpp))
    ensures r < 16
    decreases c
  {
    var k := PerByte(bpp);
    if c < k then Unpack(row[0], Shift(bpp, c), bpp)
    else PackedIndex(row[1..], bpp, c - k)
  }

  /** Index `c` is in byte `Quot(c, k)` of the row, `Rem(c, k)` slots down. */
  lemma {:induction false} PackedIndexQuot(row: seq<byte>, bpp: nat, c: nat)
    requires bpp == 1 || bpp == 2 || bpp == 4
    requires c < Times(|row|, PerByte(bpp))
    ensures Quot(c, PerByte(bpp)) < |row|
    ensures PackedIndex(row, bpp, c) ==
            Unpack(row[Quot(c, PerByte(bpp))], Shift(bpp, Rem(c, PerByte(bpp))), bpp)
    decreases c
  {
    var k := PerByte(bpp);
    if c >= k {
      PackedIndexQuot(row[1..], bpp, c - k);
      assert row[1..][Quot(c - k, k)] == row[Quot(c, k)];
    }
  }

  /** The first `n` pixels of a packed row, colours from palette `pal`,
      one colour of four bytes per index: byte `i` is byte `i % 4` of the
      entry index `i / 4` names. */
  function RowPixels(row: seq<byte>, pal: seq<byte>, bpp: nat, n: nat): (r: seq<byte>)
    requires bpp == 1 || bpp == 2 || bpp == 4
    requires |pal| == BufferBytes && n <= Times(|row|, PerByte(bpp))
    ensures |r| == 4 * n
  {
    seq(4 * n, i requires 0 <= i < 4 * n => Colour(pal, PackedIndex(row, bpp, i / 4))[i % 4])
  }

  /** Pixel `c` of a row is the entry named by index `c` of the row. */
  lemma {:induction false} RowPixelsAt(row: seq<byte>, pal: seq<byte>, bpp: nat, n: nat, c: nat)
    requires bpp == 1 || bpp == 2 || bpp == 4
    requires |pal| == BufferBytes && n <= Times(|row|, PerByte(bpp)) && c < n
    ensures RowPixels(row, pal, bpp, n)[4 * c..4 * c + 4] == Colour(pal, PackedIndex(row, bpp, c))
  {
    var p := RowPixels(row, pal, bpp, n);
    forall j | 0 <= j < 4
      ensures p[4 * c + j] == Colour(pal, PackedIndex(row, bpp, c))[j]
    {
      assert (4 * c + j) / 4 == c && (4 * c + j) % 4 == j;
    }
  }

  /** Pixel `c` of a row is the entry named by the bits of byte `Quot(c, k)`,
      slot `Rem(c, k)`. */
  lemma {:induction false} RowPixelsByte(row: seq<byte>, pal: seq<byte>, bpp: nat, n: nat, c: nat)
    requires bpp == 1 || bpp == 2 || bpp == 4
    requires |pal| == BufferBytes && n <= Times(|row|, PerByte(bpp)) && c < n
    ensures Quot(c, PerByte(bpp)) < |row|
    ensures RowPixels(row, pal, bpp, n)[4 * c..4 * c + 4] ==
            Colour(pal, Unpack(row[Quot(c, PerByte(bpp))], Shift(bpp, Rem(c, PerByte(bpp))), bpp))
  {
    RowPixelsAt(row, pal, bpp, n, c);
    PackedIndexQuot(row, bpp, c);
  }

  /** One more index adds its colour at the end of the row's pixels. */
  lemma {:induction false} RowPixelsGrow(row: seq<byte>, pal: seq<byte>, bpp: nat, x: nat)
    requires bpp == 1 || bpp == 2 || bpp == 4
    requires |pal| == BufferBytes && x < Times(|row|, PerByte(bpp))
    ensures RowPixels(row, pal, bpp, x + 1) == RowPixels(row, pal, bpp, x) + Colour(pal, PackedIndex(row, bpp, x))
  {
    var p, q := RowPixels(row, pal, bpp, x + 1), RowPixels(row, pal, bpp, x);
    forall i | 0 <= i < 4 * x
      ensures p[i] == q[i]
    {
    }
    RowPixelsAt(row, pal, bpp, x + 1, x);
  }

  /** The pixels of the first `n` packed rows of `s`, row after row, in a
      tile `tw` pixels wide. */
  function PaletteRows(s: seq<byte>, pal: seq<byte>, bpp: nat, tw: nat, rb: nat, n: nat): (r: seq<byte>)
    requires bpp == 1 || bpp == 2 || bpp == 4
    requires |pal| == BufferBytes && tw <= Times(rb, PerByte(bpp)) && Times(n, rb) <= |s|
    ensures |r| == Times(n, 4 * tw)
  {
    if n == 0 then []
    else
      var o := Times(n - 1, rb);
      TimesNext(n - 1, rb);
      PaletteRows(s, pal, bpp, tw, rb, n - 1) + RowPixels(s[o..o + rb], pal, bpp, tw)
  }

  /** `n` rows are the first `n - 1` and then row `n - 1`. */
  lemma {:induction false} PaletteRowsNext(s: seq<byte>, pal: seq<byte>, bpp: nat, tw: nat, rb: nat, n: nat)
    requires bpp == 1 || bpp == 2 || bpp == 4
    requires |pal| == BufferBytes && tw <= Times(rb, PerByte(bpp)) && n >= 1 && Times(n, rb) <= |s|
    ensures Times(n - 1, rb) + rb == Times(n, rb)
    ensures PaletteRows(s, pal, bpp, tw, rb, n) ==
            PaletteRows(s, pal, bpp, tw, rb, n - 1) + RowPixels(s[Times(n - 1, rb)..Times(n - 1, rb) + rb], pal, bpp, tw)
  {
  }

  /** `_decodePaletteTile`: the palette goes to the pixel buffer, then one
      packed row per tile row. Reads are byte by byte, so a stream that
      runs short throws once it is used up. */
  function PaletteTile(m: M, ps: nat, tw: nat, th: nat): (r: Z<seq<byte>>)
    requires |m.pb| == BufferBytes && 2 <= ps <= 16 && 1 <= tw <= 64 && 1 <= th <= 64
    ensures |r.m.pb| == BufferBytes
    ensures r.v.Ok? ==> |r.v.value| == Times(th, 4 * tw) <= BufferBytes
  {
    TileFits(tw, th);
    var p := ReadPixels(m, ps);
    if p.v.Err? then Z(p.m, Err(p.v.msg))
    else
      var bpp := Bpp(ps);
      var rb := RowBytes(tw, bpp);
      var need := Times(th, rb);
      if |p.m.rest| < need then Z(M([], p.m.pb), Err(Incomplete))
      else Z(M(p.m.rest[need..], p.m.pb), Ok(PaletteRows(p.m.rest, p.m.pb, bpp, tw, rb, th)))
  }

  /** Fewer rows decode to a prefix of the pixels of more rows. */
  lemma {:induction false} PaletteRowsPrefix(s: seq<byte>, pal: seq<byte>, bpp: nat, tw: nat, rb: nat, m: nat, n: nat)
    requires bpp == 1 || bpp == 2 || bpp == 4
    requires |pal| == BufferBytes && tw <= Times(rb, PerByte(bpp)) && Times(n, rb) <= |s| && m <= n
    ensures Times(m, rb) <= |s|
    ensures PaletteRows(s, pal, bpp, tw, rb, m) <= PaletteRows(s, pal, bpp, tw, rb, n)
    decreases n
  {
    TimesMono(m, n, rb);
    if m < n {
      PaletteRowsNext(s, pal, bpp, tw, rb, n);
      PaletteRowsPrefix(s, pal, bpp, tw, rb, m, n - 1);
      PrefixAppend(PaletteRows(s, pal, bpp, tw, rb, m), PaletteRows(s, pal, bpp, tw, rb, n - 1),
                   RowPixels(s[Times(n - 1, rb)..Times(n - 1, rb) + rb], pal, bpp, tw), PaletteRows(s, pal, bpp, tw, rb, n));
    }
  }

  /** A prefix of `p` is a prefix of `p + l`. */
  lemma {:induction false} PrefixAppend(a: seq<byte>, p: seq<byte>, l: seq<byte>, b: seq<byte>)
    requires a <= p && b == p + l
    ensures a <= b
  {
    assert (p + l)[..|a|] == p[..|a|];
  }

  /** A block inside a prefix. */
  lemma {:induction false} PrefixSlice(a: seq<byte>, b: seq<byte>, o: nat, w: nat)
    requires a <= b && o + w <= |a|
    ensures b[o..o + w] == a[o..o + w]
  {
    assert b[..|a|] == a;
  }

  /** The last of `r + 1` rows of pixels is the pixels of packed row `r`. */
  lemma {:induction false} PaletteRowsLast(s: seq<byte>, pal: seq<byte>, bpp: nat, tw: nat, rb: nat, r: nat)
    requires bpp == 1 || bpp == 2 || bpp == 4
    requires |pal| == BufferBytes && tw <= Times(rb, PerByte(bpp)) && Times(r + 1, rb) <= |s|
    ensures var o := Times(r, 4 * tw);
            o + 4 * tw == |PaletteRows(s, pal, bpp, tw, rb, r + 1)| &&
            PaletteRows(s, pal, bpp, tw, rb, r + 1)[o..o + 4 * tw] == RowPixels(s[Times(r, rb)..Times(r, rb) + rb], pal, bpp, tw)
  {
    var p := PaletteRows(s, pal, bpp, tw, rb, r);
    var l := RowPixels(s[Times(r, rb)..Times(r, rb) + rb], pal, bpp, tw);
    AppendSliceRight(p, l, Times(r, 4 * tw), 4 * tw);
  }

  /** Row `r` of the pixels is the pixels of packed row `r`. */
  lemma {:induction false} PaletteRowsRow(s: seq<byte>, pal: seq<byte>, bpp: nat, tw: nat, rb: nat, n: nat, r: nat)
    requires bpp == 1 || bpp == 2 || bpp == 4
    requires |pal| == BufferBytes && tw <= Times(rb, PerByte(bpp)) && Times(n, rb) <= |s| && r < n
    ensures Times(r, rb) + rb <= |s| && Times(r, 4 * tw) + 4 * tw <= |PaletteRows(s, pal, bpp, tw, rb, n)|
    ensures PaletteRows(s, pal, bpp, tw, rb, n)[Times(r, 4 * tw)..Times(r, 4 * tw) + 4 * tw] ==
            RowPixels(s[Times(r, rb)..Times(r, rb) + rb], pal, bpp, tw)
  {
    PaletteRowsPrefix(s, pal, bpp, tw, rb, r + 1, n);
    PaletteRowsLast(s, pal, bpp, tw, rb, r);
    PrefixSlice(PaletteRows(s, pal, bpp, tw, rb, r + 1), PaletteRows(s, pal, bpp, tw, rb, n), Times(r, 4 * tw), 4 * tw);
  }

  /** A block of a block is the block of the whole at the summed offset. */
  lemma {:induction false} SliceOfSlice(t: seq<byte>, o: nat, l: nat, j: nat, w: nat)
    requires o + l <= |t| && j + w <= l
    ensures t[o + j..o + j + w] == t[o..o + l][j..j + w]
  {
    var u := t[o..o + l][j..j + w];
    assert forall i :: 0 <= i < w ==> u[i] == t[o + j + i];
  }

  /** A block inside the left part of a concatenation. */
  lemma {:induction false} AppendSliceLeft(p: seq<byte>, l: seq<byte>, o: nat, w: nat)
    requires o + w <= |p|
    ensures (p + l)[o..o + w] == p[o..o + w]
  {
  }

  /** A block inside the right part of a concatenation. */
  lemma {:induction false} AppendSliceRight(p: seq<byte>, l: seq<byte>, o: nat, w: nat)
    requires |p| <= o && o + w <= |p| + |l|
    ensures (p + l)[o..o + w] == l[o - |p|..o - |p| + w]
  {
  }


  /** An element of a block is the element of the whole at the summed offset. */
  lemma {:induction false} SliceAt(s: seq<byte>, o: nat, l: nat, q: nat)
    requires o + l <= |s| && q < l
    ensures s[o..o + l][q] == s[o + q]
  {
  }

  /** A decoded palette tile is the decoded rows after its palette. */
  lemma {:induction false} PaletteTileRows(m: M, ps: nat, tw: nat, th: nat)
    requires |m.pb| == BufferBytes && 2 <= ps <= 16 && 1 <= tw <= 64 && 1 <= th <= 64
    requires PaletteTile(m, ps, tw, th).v.Ok?
    ensures var p := ReadPixels(m, ps);
            var bpp := Bpp(ps);
            var rb := RowBytes(tw, bpp);
            tw <= Times(rb, PerByte(bpp)) && Times(th, rb) <= |p.m.rest| &&
            PaletteTile(m, ps, tw, th).v.value == PaletteRows(p.m.rest, p.m.pb, bpp, tw, rb, th)
  {
  }

  /** Pixel `c` of row `r` of the decoded rows is named by the bits of row
      byte `Quot(c, k)`, slot `Rem(c, k)`. */
  lemma {:induction false} PaletteRowsAt(s: seq<byte>, pal: seq<byte>, bpp: nat, tw: nat, rb: nat, n: nat, r: nat, c: nat,
                                         t: seq<byte>, i: nat, j: nat, o: nat)
    requires bpp == 1 || bpp == 2 || bpp == 4
    requires |pal| == BufferBytes && tw <= Times(rb, PerByte(bpp)) && Times(n, rb) <= |s| && r < n && c < tw
    requires t == PaletteRows(s, pal, bpp, tw, rb, n)
    requires i == Times(r, rb) + Quot(c, PerByte(bpp)) && j == Rem(c, PerByte(bpp)) && o == Times(r, 4 * tw) + 4 * c
    ensures i < |s| && o + 4 <= |t| && t[o..o + 4] == Colour(pal, Unpack(s[i], Shift(bpp, j), bpp))
  {
    PaletteRowsIndex(s, pal, bpp, tw, rb, n, r, c);
  }

  lemma {:induction false} PaletteRowsIndex(s: seq<byte>, pal: seq<byte>, bpp: nat, tw: nat, rb: nat, n: nat, r: nat, c: nat)
    requires bpp == 1 || bpp == 2 || bpp == 4
    requires |pal| == BufferBytes && tw <= Times(rb, PerByte(bpp)) && Times(n, rb) <= |s| && r < n && c < tw
    ensures var o := Times(r, 4 * tw) + 4 * c;
            var i := Times(r, rb) + Quot(c, PerByte(bpp));
            i < |s| && o + 4 <= |PaletteRows(s, pal, bpp, tw, rb, n)| &&
            PaletteRows(s, pal, bpp, tw, rb, n)[o..o + 4] == Colour(pal, Unpack(s[i], Shift(bpp, Rem(c, PerByte(bpp))), bpp))
  {
    var b, k := Times(r, rb), PerByte(bpp);
    PaletteRowsPick(s, pal, bpp, tw, rb, n, r, c);
    var row := s[b..b + rb];
    RowPixelsByte(row, pal, bpp, tw, c);
    SliceAt(s, b, rb, Quot(c, k));
  }

  /** Pixel `c` of row `r` of the decoded rows is pixel `c` of that row. */
  lemma {:induction false} PaletteRowsPick(s: seq<byte>, pal: seq<byte>, bpp: nat, tw: nat, rb: nat, n: nat, r: nat, c: nat)
    requires bpp == 1 || bpp == 2 || bpp == 4
    requires |pal| == BufferBytes && tw <= Times(rb, PerByte(bpp)) && Times(n, rb) <= |s| && r < n && c < tw
    ensures Times(r, rb) + rb <= |s| && Times(r, 4 * tw) + 4 * c + 4 <= |PaletteRows(s, pal, bpp, tw, rb, n)|
    ensures PaletteRows(s, pal, bpp, tw, rb, n)[Times(r, 4 * tw) + 4 * c..Times(r, 4 * tw) + 4 * c + 4] ==
            RowPixels(s[Times(r, rb)..Times(r, rb) + rb], pal, bpp, tw)[4 * c..4 * c + 4]
  {
    PaletteRowsRow(s, pal, bpp, tw, rb, n, r);
    SliceOfSlice(PaletteRows(s, pal, bpp, tw, rb, n), Times(r, 4 * tw), 4 * tw, 4 * c, 4);
  }

  /** A block of a block that is known is known. */
  lemma {:induction false} BlockOfBlock(t: seq<byte>, o: nat, l: nat, j: nat, u: seq<byte>, x: seq<byte>)
    requires o + l <= |t| && j + 4 <= l && t[o..o + l] == u && u[j..j + 4] == x
    ensures t[o + j..o + j + 4] == x
  {
    SliceOfSlice(t, o, l, j, 4);
  }

  /** Pixel `c` of row `r` of a decoded palette tile, in the block
      arithmetic of the definitions. */
  lemma {:induction false} PaletteTileAt(m: M, ps: nat, tw: nat, th: nat, r: nat, c: nat, i: nat, j: nat, o: nat)
    requires |m.pb| == BufferBytes && 2 <= ps <= 16 && 1 <= tw <= 64 && 1 <= th <= 64 && r < th && c < tw
    requires PaletteTile(m, ps, tw, th).v.Ok?
    requires i == Times(r, RowBytes(tw, Bpp(ps))) + Quot(c, PerByte(Bpp(ps))) && j == Rem(c, PerByte(Bpp(ps)))
    requires o == Times(r, 4 * tw) + 4 * c
    ensures var p := ReadPixels(m, ps);
            var bpp := Bpp(ps);
            var t := PaletteTile(m, ps, tw, th).v.value;
            i < |p.m.rest| && o + 4 <= |t| &&
            t[o..o + 4] == Colour(p.m.pb, Unpack(p.m.rest[i], Shift(bpp, j), bpp))
  {
    var p := ReadPixels(m, ps);
    PaletteTileRows(m, ps, tw, th);
    PaletteRowsAt(p.m.rest, p.m.pb, Bpp(ps), tw, RowBytes(tw, Bpp(ps)), th, r, c,
                  PaletteTile(m, ps, tw, th).v.value, i, j, o);
  }

  /** In a decoded palette tile, pixel `c` of row `r`, at byte `o = 4 *
      (r * tw + c)` of the tile, is the entry of the palette just read that
      the `bpp` bits of byte `i = r * rb + c / k` after the palette name,
      `k = 8 / bpp` indices to a byte and `rb` bytes to a row, shifted
      right by the shift of slot `j = c % k`, the first index in the top bits. */
  lemma {:induction false} PaletteTilePixel(m: M, ps: nat, tw: nat, th: nat, r: nat, c: nat, i: nat, j: nat, o: nat)
    requires |m.pb| == BufferBytes && 2 <= ps <= 16 && 1 <= tw <= 64 && 1 <= th <= 64 && r < th && c < tw
    requires PaletteTile(m, ps, tw, th).v.Ok?
    requires i == r * RowBytes(tw, Bpp(ps)) + c / PerByte(Bpp(ps)) && j == c % PerByte(Bpp(ps))
    requires o == 4 * (r * tw + c)
    ensures var p := ReadPixels(m, ps);
            var bpp := Bpp(ps);
            var t := PaletteTile(m, ps, tw, th).v.value;
            i < |p.m.rest| && o + 4 <= |t| &&
            t[o..o + 4] == Colour(p.m.pb, Unpack(p.m.rest[i], Shift(bpp, j), bpp))
  {
    RowOffset(r, RowBytes(tw, Bpp(ps)), c, PerByte(Bpp(ps)), i, j);
    PixelOffset(r, tw, c, o);
    PaletteTileAt(m, ps, tw, th, r, c, i, j, o);
  }

  /** Byte `4 * (r * tw + c)` of the tile, in block terms. */
  lemma {:induction false} PixelOffset(r: nat, tw: nat, c: nat, o: nat)
    requires o == 4 * (r * tw + c)
    ensures o == Times(r, 4 * tw) + 4 * c
  {
    TimesIs(r, 4 * tw);
    MulAssoc4(r, tw);
  }

  /** Byte `r * rb + c / k` of the rows and slot `c % k`, in block terms. */
  lemma {:induction false} RowOffset(r: nat, rb: nat, c: nat, k: nat, i: nat, j: nat)
    requires k > 0 && i == r * rb + c / k && j == c % k
    ensures i == Times(r, rb) + Quot(c, k) && j == Rem(c, k)
  {
    TimesIs(r, rb);
    QuotRemIs(c, k);
  }

  lemma {:induction false} MulAssoc4(r: nat, tw: nat)
    ensures 4 * (r * tw) == r * (4 * tw)
  {
  }

  /** A palette tile reads `3 * ps` bytes of palette and `RowBytes` bytes
      per row, and succeeds exactly when the stream holds all of them. */
  lemma {:induction false} PaletteTileBytes(m: M, ps: nat, tw: nat, th: nat)
    requires |m.pb| == BufferBytes && 2 <= ps <= 16 && 1 <= tw <= 64 && 1 <= th <= 64
    ensures var r := PaletteTile(m, ps, tw, th);
            var need := 3 * ps + th * RowBytes(tw, Bpp(ps));
            (r.v.Ok? <==> need <= |m.rest|) &&
            (r.v.Ok? ==> r.m.rest == m.rest[need..]) &&
            (r.v.Err? ==> r.v.msg == Incomplete)
  {
    TimesIs(th, RowBytes(tw, Bpp(ps)));
  }

  // ----- Run-length tiles -----

  /** One run of `_decodeRLETile`: a colour into entry 0 of the pixel
      buffer, then its run length. The colour is always opaque. */
  function RleRun(m: M): (r: Z<nat>)
    requires |m.pb| == BufferBytes
    ensures |r.m.pb| == BufferBytes
    ensures r.v.Ok? ==> |r.m.rest| < |m.rest| && r.v.value >= 1 && r.m.pb[3] == 255
    ensures r.v.Err? ==> r.v.msg == Incomplete
  {
    var p := ReadPixels(m, 1);
    if p.v.Err? then Z(p.m, Err(p.v.msg))
    else
      ReadPixelsRgba(m, 1, 0);
      RunLength(p.m, 0)
  }

  /** The loop of `_decodeRLETile` with `left` pixels of the tile still to
      fill and the pixels `acc` so far: a colour into the pixel buffer, a
      run length, and that many pixels, the last run cut at the tile's
      end. */
  function RleRuns(m: M, left: nat, acc: seq<byte>): (r: Z<seq<byte>>)
    requires |m.pb| == BufferBytes
    ensures |r.m.pb| == BufferBytes
    ensures r.v.Ok? ==> |r.v.value| == |acc| + 4 * left
    ensures r.v.Err? ==> r.v.msg == Incomplete
    decreases |m.rest|
  {
    if left == 0 then Z(m, Ok(acc))
    else
      var n := RleRun(m);
      if n.v.Err? then Z(n.m, Err(n.v.msg))
      else
        var k := Min(n.v.value, left);
        RleRuns(n.m, left - k, acc + Repeat(Colour(n.m.pb, 0), k))
  }

  /** A run that reaches past the end of the tile is cut there without an
      error: the tile is complete and the excess is dropped. */
  lemma {:induction false} RleRunClipped(m: M, left: nat, acc: seq<byte>)
    requires |m.pb| == BufferBytes && left > 0
    requires RleRun(m).v.Ok? && RleRun(m).v.value >= left
    ensures var n := RleRun(m);
            RleRuns(m, left, acc) == Z(n.m, Ok(acc + Repeat(Colour(n.m.pb, 0), left)))
  {
  }

  lemma {:induction false} RepeatOpaque(c: seq<byte>, k: nat)
    requires |c| == 4 && c[3] == 255
    ensures Opaque(Repeat(c, k))
  {
    if k > 0 {
      RepeatOpaque(c, k - 1);
      var r := Repeat(c, k);
      assert r[..|r| - 4] == Repeat(c, k - 1);
    }
  }

  lemma {:induction false} AppendOpaque(a: seq<byte>, b: seq<byte>)
    requires |b| % 4 == 0 && Opaque(a) && Opaque(b)
    ensures Opaque(a + b)
    decreases |b|
  {
    if |b| >= 4 {
      var b' := b[..|b| - 4];
      AppendOpaque(a, b');
      assert (a + b)[..|a + b| - 4] == a + b';
    } else {
      assert a + b == a;
    }
  }

  /** A successful run-length tile continues after its first run. */
  lemma {:induction false} RleRunsStep(m: M, left: nat, acc: seq<byte>)
    requires |m.pb| == BufferBytes && left > 0 && RleRuns(m, left, acc).v.Ok?
    ensures var n := RleRun(m);
            var k := Min(n.v.value, left);
            n.v.Ok? && RleRuns(m, left, acc) == RleRuns(n.m, left - k, acc + Repeat(Colour(n.m.pb, 0), k))
  {
  }

  /** Every pixel of a plain run-length tile is opaque: its colours come
      from `_readPixels`. */
  lemma {:induction false} RleRunsOpaque(m: M, left: nat, acc: seq<byte>)
    requires |m.pb| == BufferBytes && Opaque(acc) && RleRuns(m, left, acc).v.Ok?
    ensures Opaque(RleRuns(m, left, acc).v.value)
    decreases |m.rest|
  {
    if left > 0 {
      var n := RleRun(m);
      var k := Min(n.v.value, left);
      var c := Colour(n.m.pb, 0);
      RepeatOpaque(c, k);
      AppendOpaque(acc, Repeat(c, k));
      RleRunsStep(m, left, acc);
      RleRunsOpaque(n.m, left - k, acc + Repeat(c, k));
    }
  }

  /** `_decodeRLETile` for a tile of `size` pixels. */
  function RleTile(m: M, size: nat): (r: Z<seq<byte>>)
    requires |m.pb| == BufferBytes
    ensures |r.m.pb| == BufferBytes
    ensures r.v.Ok? ==> |r.v.value| == 4 * size && Opaque(r.v.value)
  {
    var r := RleRuns(m, size, []);
    if r.v.Ok? then RleRunsOpaque(m, size, []); r else r
  }

  /** The head of one palette run: an index byte, and when its top bit is
      set a run length after it; otherwise the run is one pixel. */
  function RunHeader(m: M): (r: Z<(nat, nat)>)
    ensures r.m.pb == m.pb && |r.m.rest| <= |m.rest|
    ensures r.v.Ok? ==> |r.m.rest| < |m.rest| && r.v.value.0 < 128 && r.v.value.1 >= 1
    ensures r.v.Err? ==> r.m.rest == [] && r.v.msg == Incomplete
  {
    var b := NextByte(m);
    if b.v.Err? then Z(b.m, Err(b.v.msg))
    else if b.v.value >= 128 then
      var n := RunLength(b.m, 0);
      if n.v.Err? then Z(n.m, Err(n.v.msg)) else Z(n.m, Ok((b.v.value as nat - 128, n.v.value)))
    else Z(b.m, Ok((b.v.value as nat, 1)))
  }

  /** The loop of `_decodeRLEPaletteTile` with `left` pixels still to fill.
      An index above `ps` and a run longer than what is left of the tile
      both throw. */
  function RlePaletteRuns(m: M, ps: nat, left: nat, acc: seq<byte>): (r: Z<seq<byte>>)
    requires |m.pb| == BufferBytes && ps <= 127
    ensures r.m.pb == m.pb
    ensures r.v.Ok? ==> |r.v.value| == |acc| + 4 * left
    decreases |m.rest|
  {
    if left == 0 then Z(m, Ok(acc))
    else
      var h := RunHeader(m);
      if h.v.Err? then Z(h.m, Err(h.v.msg))
      else
        var idx, len := h.v.value.0, h.v.value.1;
        if idx > ps then Z(h.m, Err(TooBigIndex))
        else if len > left then Z(h.m, Err(TooBigLength))
        else RlePaletteRuns(h.m, ps, left - len, acc + Repeat(Colour(h.m.pb, idx), len))
  }

  /** `_decodeRLEPaletteTile` for a palette of `ps` entries and a tile of
      `size` pixels. */
  function RlePaletteTile(m: M, ps: nat, size: nat): (r: Z<seq<byte>>)
    requires |m.pb| == BufferBytes && 2 <= ps <= 127
    ensures |r.m.pb| == BufferBytes
    ensures r.v.Ok? ==> |r.v.value| == 4 * size
  {
    var p := ReadPixels(m, ps);
    if p.v.Err? then Z(p.m, Err(p.v.msg)) else RlePaletteRuns(p.m, ps, size, [])
  }

  lemma {:induction false} RepeatFromPalette(pb: seq<byte>, last: nat, i: nat, k: nat)
    requires 4 * last + 4 <= |pb| && i <= last
    ensures FromPalette(Repeat(Colour(pb, i), k), pb, last)
  {
    if k > 0 {
      var c := Colour(pb, i);
      var r := Repeat(c, k);
      RepeatFromPalette(pb, last, i, k - 1);
      IsEntryOf(pb, last, i);
      assert r[..|r| - 4] == Repeat(c, k - 1);
      assert r[|r| - 4..] == c;
    }
  }

  lemma {:induction false} AppendFromPalette(a: seq<byte>, b: seq<byte>, pb: seq<byte>, last: nat)
    requires 4 * last + 4 <= |pb| && |b| % 4 == 0 && FromPalette(a, pb, last) && FromPalette(b, pb, last)
    ensures FromPalette(a + b, pb, last)
    decreases |b|, 1
  {
    if b != [] {
      AppendSnoc(a, b, pb, last);
    } else {
      AppendNothing(a, b, pb, last);
    }
  }

  /** The step of `AppendFromPalette`: `a + b` ends in the last colour of `b`. */
  lemma {:induction false} AppendSnoc(a: seq<byte>, b: seq<byte>, pb: seq<byte>, last: nat)
    requires 4 * last + 4 <= |pb| && |b| % 4 == 0 && |b| >= 4
    requires FromPalette(a, pb, last) && FromPalette(b, pb, last)
    ensures FromPalette(a + b, pb, last)
    decreases |b|, 0
  {
    AppendFromPalette(a, b[..|b| - 4], pb, last);
    SnocFromPalette(a, b, pb, last);
  }

  /** Pixels from the palette followed by one more entry. */
  lemma {:induction false} SnocFromPalette(a: seq<byte>, b: seq<byte>, pb: seq<byte>, last: nat)
    requires 4 * last + 4 <= |pb| && |b| >= 4
    requires IsEntry(b[|b| - 4..], pb, last) && FromPalette(a + b[..|b| - 4], pb, last)
    ensures FromPalette(a + b, pb, last)
  {
    var ab := a + b;
    SnocSplit(a, b, ab);
    FromPaletteStep(ab, pb, last);
  }

  lemma {:induction false} AppendNothing(a: seq<byte>, b: seq<byte>, pb: seq<byte>, last: nat)
    requires 4 * last + 4 <= |pb| && b == [] && FromPalette(a, pb, last)
    ensures FromPalette(a + b, pb, last)
  {
    assert a + b == a;
  }

  /** The last colour of `a + b` is the last of `b`, and what precedes it is `a`
      followed by the rest of `b`. */
  lemma {:induction false} SnocSplit(a: seq<byte>, b: seq<byte>, ab: seq<byte>)
    requires |b| >= 4 && ab == a + b
    ensures ab[..|ab| - 4] == a + b[..|b| - 4] && ab[|ab| - 4..] == b[|b| - 4..]
  {}

  lemma {:induction false} FromPaletteStep(s: seq<byte>, pb: seq<byte>, last: nat)
    requires 4 * last + 4 <= |pb| && |s| >= 4
    requires IsEntry(s[|s| - 4..], pb, last) && FromPalette(s[..|s| - 4], pb, last)
    ensures FromPalette(s, pb, last)
  {}

  /** Every pixel of a palette run-length tile is one of the palette's
      entries `0..ps`: the check lets the index `ps` itself through (see
      RlePaletteIndexAtSize). */
  lemma {:induction false} RlePaletteRunsFromPalette(m: M, ps: nat, left: nat, acc: seq<byte>)
    requires |m.pb| == BufferBytes && ps <= 127 && FromPalette(acc, m.pb, ps)
    requires RlePaletteRuns(m, ps, left, acc).v.Ok?
    ensures FromPalette(RlePaletteRuns(m, ps, left, acc).v.value, m.pb, ps)
    decreases |m.rest|
  {
    if left > 0 {
      var h := RunHeader(m);
      RlePaletteStop(m, ps, left, acc, h.m, h.v);
      var idx, len := h.v.value.0, h.v.value.1;
      var run := Repeat(Colour(m.pb, idx), len);
      RepeatFromPalette(m.pb, ps, idx, len);
      AppendFromPalette(acc, run, m.pb, ps);
      RlePaletteNext(m, ps, left, acc, h.m, idx, len);
      RlePaletteRunsFromPalette(h.m, ps, left - len, acc + run);
    }
  }

  /** An index byte equal to the palette size passes the range check and
      paints entry `ps` of the pixel buffer, which the palette just read
      does not cover: it holds whatever an earlier tile left there. */
  lemma {:induction false} RlePaletteIndexAtSize(m: M, ps: nat, left: nat, acc: seq<byte>)
    requires |m.pb| == BufferBytes && ps <= 127 && left >= 1 && |m.rest| >= 1 && m.rest[0] as nat == ps
    ensures RlePaletteRuns(m, ps, left, acc) ==
            RlePaletteRuns(m.(rest := m.rest[1..]), ps, left - 1, acc + Colour(m.pb, ps))
  {
    assert Repeat(Colour(m.pb, ps), 1) == Colour(m.pb, ps);
  }

  /** An index above the palette size throws, and so does a run that
      would overflow the tile. */
  lemma {:induction false} RlePaletteChecks(m: M, ps: nat, left: nat, acc: seq<byte>)
    requires |m.pb| == BufferBytes && ps <= 127 && left >= 1 && RunHeader(m).v.Ok?
    ensures var h := RunHeader(m);
            (h.v.value.0 > ps ==> RlePaletteRuns(m, ps, left, acc) == Z(h.m, Err(TooBigIndex))) &&
            (h.v.value.0 <= ps && h.v.value.1 > left ==> RlePaletteRuns(m, ps, left, acc) == Z(h.m, Err(TooBigLength)))
  {
  }

  // ----- Tiles -----

  /** The pixel count of a tile, at most one full 64x64 tile. */
  function TileArea(tw: nat, th: nat): (n: nat)
    requires 1 <= tw <= 64 && 1 <= th <= 64
    ensures n == tw * th && 1 <= n <= 4096
  {
    MulLe(tw, 64, th);
    MulLe(th, 64, 64);
    tw * th
  }

  /** A palette tile of `th` rows of `4 * tw` bytes holds the tile's area
      in RGBA pixels. */
  lemma {:induction false} TileBytes(tw: nat, th: nat)
    requires 1 <= tw <= 64 && 1 <= th <= 64
    ensures Times(th, 4 * tw) == 4 * TileArea(tw, th)
  {
    TimesIs(th, 4 * tw);
  }

  /** What a tile or a run of tiles leaves, the calls it made, and how it ended. */
  datatype Drawn = Drawn(m: M, calls: seq<Call>, v: Result<()>)

  /** A decoded tile goes to the display as one image. */
  function Blit(z: Z<seq<byte>>, tx: int, ty: int, tw: nat, th: nat): (d: Drawn)
    ensures d.m == z.m
    ensures z.v.Ok? ==> d.calls == [BlitImage(tx, ty, tw, th, z.v.value)] && d.v.Ok?
    ensures z.v.Err? ==> d.calls == [] && d.v == Err(z.v.msg)
  {
    if z.v.Err? then Drawn(z.m, [], Err(z.v.msg)) else Drawn(z.m, [BlitImage(tx, ty, tw, th, z.v.value)], Ok(()))
  }

  /** One tile of the tile loops: the subencoding byte and its decoder. */
  function Tile(m: M, tx: int, ty: int, tw: nat, th: nat): (r: Drawn)
    requires |m.pb| == BufferBytes && 1 <= tw <= 64 && 1 <= th <= 64
    ensures |r.m.pb| == BufferBytes
    // a tile is drawn with exactly one call covering it, or not at all
    ensures r.v.Ok? ==> |r.calls| == 1 && r.calls[0].x == tx && r.calls[0].y == ty &&
                        r.calls[0].w == tw && r.calls[0].h == th
    ensures r.v.Err? ==> r.calls == []
  {
    var s := NextByte(m);
    if s.v.Err? then Drawn(s.m, [], Err(s.v.msg)) else SubTile(s.m, s.v.value as nat, tx, ty, tw, th)
  }

  /** The tile that subencoding `sub` announces, from the byte after it. */
  function SubTile(m: M, sub: nat, tx: int, ty: int, tw: nat, th: nat): (r: Drawn)
    requires |m.pb| == BufferBytes && 1 <= tw <= 64 && 1 <= th <= 64 && sub <= 255
    ensures |r.m.pb| == BufferBytes
    ensures r.v.Ok? ==> |r.calls| == 1 && r.calls[0].x == tx && r.calls[0].y == ty &&
                        r.calls[0].w == tw && r.calls[0].h == th
    ensures r.v.Err? ==> r.calls == []
  {
    if sub <= 1 then PlainTile(m, sub, tx, ty, tw, th) else IndexedTile(m, sub, tx, ty, tw, th)
  }

  /** Subencoding 0 (raw) and 1 (solid): pixels straight from the stream. */
  function PlainTile(m: M, sub: nat, tx: int, ty: int, tw: nat, th: nat): (r: Drawn)
    requires |m.pb| == BufferBytes && 1 <= tw <= 64 && 1 <= th <= 64 && sub <= 1
    ensures |r.m.pb| == BufferBytes
    ensures r.v.Ok? ==> |r.calls| == 1 && r.calls[0].x == tx && r.calls[0].y == ty &&
                        r.calls[0].w == tw && r.calls[0].h == th
    ensures r.v.Err? ==> r.calls == []
  {
    var size := TileArea(tw, th);
    if sub == 0 then
      var p := ReadPixels(m, size);
      if p.v.Err? then Drawn(p.m, [], Err(p.v.msg))
      else Drawn(p.m, [BlitImage(tx, ty, tw, th, p.m.pb[..4 * size])], Ok(()))
    else
      var p := ReadPixels(m, 1);
      if p.v.Err? then Drawn(p.m, [], Err(p.v.msg))
      else Drawn(p.m, [FillRect(tx, ty, tw, th, p.m.pb[..3])], Ok(()))
  }

  /** The other subencodings: a palette, runs, runs over a palette, each
      drawn as one image, or none that the decoder knows. */
  function IndexedTile(m: M, sub: nat, tx: int, ty: int, tw: nat, th: nat): (r: Drawn)
    requires |m.pb| == BufferBytes && 1 <= tw <= 64 && 1 <= th <= 64 && 2 <= sub <= 255
    ensures |r.m.pb| == BufferBytes
    ensures r.v.Ok? ==> |r.calls| == 1 && r.calls[0].x == tx && r.calls[0].y == ty &&
                        r.calls[0].w == tw && r.calls[0].h == th
    ensures r.v.Err? ==> r.calls == []
  {
    var size := TileArea(tw, th);
    if sub <= 16 then Blit(PaletteTile(m, sub, tw, th), tx, ty, tw, th)
    else if sub == 128 then Blit(RleTile(m, size), tx, ty, tw, th)
    else if 130 <= sub then Blit(RlePaletteTile(m, sub - 128, size), tx, ty, tw, th)
    else Drawn(m, [], Err(UnknownSubencoding))
  }

  /** The four cases of an indexed tile, one per subencoding range. */
  lemma {:induction false} IndexedTileCases(m: M, sub: nat, tx: int, ty: int, tw: nat, th: nat)
    requires |m.pb| == BufferBytes && 1 <= tw <= 64 && 1 <= th <= 64 && 2 <= sub <= 255
    ensures sub <= 16 ==> IndexedTile(m, sub, tx, ty, tw, th) == Blit(PaletteTile(m, sub, tw, th), tx, ty, tw, th)
    ensures sub == 128 ==> IndexedTile(m, sub, tx, ty, tw, th) == Blit(RleTile(m, TileArea(tw, th)), tx, ty, tw, th)
    ensures 130 <= sub ==>
              IndexedTile(m, sub, tx, ty, tw, th) == Blit(RlePaletteTile(m, sub - 128, TileArea(tw, th)), tx, ty, tw, th)
    ensures 16 < sub < 130 && sub != 128 ==> IndexedTile(m, sub, tx, ty, tw, th) == Drawn(m, [], Err(UnknownSubencoding))
  {
  }

  /** Subencoding 0 draws the tile's own triples, widened to RGBA. */
  lemma {:induction false} TileRaw(m: M, tx: int, ty: int, tw: nat, th: nat)
    requires |m.pb| == BufferBytes && 1 <= tw <= 64 && 1 <= th <= 64
    requires |m.rest| >= 1 + 3 * (tw * th) && m.rest[0] == 0
    ensures var t := Tile(m, tx, ty, tw, th);
            t.v.Ok? && t.m.rest == m.rest[1 + 3 * (tw * th)..] &&
            t.calls == [BlitImage(tx, ty, tw, th, Expand(m.rest[1..1 + 3 * (tw * th)]))]
  {
    var size := TileArea(tw, th);
    var m1 := m.(rest := m.rest[1..]);
    var e := Expand(m1.rest[..3 * size]);
    assert (e + m.pb[4 * size..])[..4 * size] == e;
    assert m1.rest[..3 * size] == m.rest[1..1 + 3 * size];
  }

  /** Subencoding 1 fills the tile with one colour, the three bytes that
      follow, without alpha. */
  lemma {:induction false} TileSolid(m: M, tx: int, ty: int, tw: nat, th: nat)
    requires |m.pb| == BufferBytes && 1 <= tw <= 64 && 1 <= th <= 64
    requires |m.rest| >= 4 && m.rest[0] == 1
    ensures var t := Tile(m, tx, ty, tw, th);
            t.v.Ok? && t.m.rest == m.rest[4..] && t.calls == [FillRect(tx, ty, tw, th, m.rest[1..4])]
  {
    var m1 := m.(rest := m.rest[1..]);
    var e := Expand(m1.rest[..3]);
    assert e == [m.rest[1], m.rest[2], m.rest[3], 255];
    assert (e + m.pb[4..])[..3] == m.rest[1..4];
  }

  /** 17 to 127 and 129 are not subencodings: the tile throws after its
      first byte and draws nothing. */
  lemma {:induction false} TileUnknown(m: M, tx: int, ty: int, tw: nat, th: nat)
    requires |m.pb| == BufferBytes && 1 <= tw <= 64 && 1 <= th <= 64
    requires |m.rest| >= 1 && (17 <= m.rest[0] <= 127 || m.rest[0] == 129)
    ensures Tile(m, tx, ty, tw, th) == Drawn(m.(rest := m.rest[1..]), [], Err(UnknownSubencoding))
  {
  }

  /** The inner tile loop: tiles at `tx`, `tx + 64`, ... across the
      rectangle, the last one clipped; it stops at the first error. */
  function TileRow(m: M, x: int, w: nat, tx: int, ty: int, th: nat): (r: Drawn)
    requires |m.pb| == BufferBytes && 1 <= th <= 64
    ensures |r.m.pb| == BufferBytes
    decreases x + w - tx
  {
    if tx >= x + w then Drawn(m, [], Ok(()))
    else
      var t := Tile(m, tx, ty, Min(64, x + w - tx), th);
      if t.v.Err? then t
      else
        var rest := TileRow(t.m, x, w, tx + 64, ty, th);
        Drawn(rest.m, t.calls + rest.calls, rest.v)
  }

  /** The outer tile loop: rows of tiles at `ty`, `ty + 64`, ... down the
      rectangle, the last one clipped. */
  function TileRows(m: M, x: int, y: int, w: nat, h: nat, ty: int): (r: Drawn)
    requires |m.pb| == BufferBytes
    ensures |r.m.pb| == BufferBytes
    decreases y + h - ty
  {
    if ty >= y + h then Drawn(m, [], Ok(()))
    else
      var row := TileRow(m, x, w, x, ty, Min(64, y + h - ty));
      if row.v.Err? then row
      else
        var rest := TileRows(row.m, x, y, w, h, ty + 64);
        Drawn(rest.m, row.calls + rest.calls, rest.v)
  }

  lemma {:induction false} AppendAssocBytes(a: seq<byte>, b: seq<byte>, c: seq<byte>)
    ensures (a + b) + c == a + (b + c)
  {
  }

  lemma {:induction false} AppendAssoc(a: seq<Call>, b: seq<Call>, c: seq<Call>)
    ensures a + b + c == a + (b + c)
  {
  }

  lemma {:induction false} AppendNil(a: seq<Call>)
    ensures a + [] == a
  {
  }

  /** Where a drawing call lands. */
  datatype Area = Area(x: int, y: int, w: int, h: int)

  function AreaOf(c: Call): Area
  {
    Area(c.x, c.y, c.w, c.h)
  }

  function Areas(calls: seq<Call>): (r: seq<Area>)
    ensures |r| == |calls| && forall i :: 0 <= i < |calls| ==> r[i] == AreaOf(calls[i])
  {
    seq(|calls|, i requires 0 <= i < |calls| => AreaOf(calls[i]))
  }

  lemma {:induction false} AreasAppend(a: seq<Call>, b: seq<Call>)
    ensures Areas(a + b) == Areas(a) + Areas(b)
  {
    assert forall i :: 0 <= i < |a + b| ==> Areas(a + b)[i] == (Areas(a) + Areas(b))[i];
  }

  /** The tiles of one row, from column `tx`: 64 wide, the last one cut at
      the right edge `x + w`. */
  function RowGrid(x: int, w: nat, tx: int, ty: int, th: nat): (r: seq<Area>)
    decreases x + w - tx
  {
    if tx >= x + w then [] else [Area(tx, ty, Min(64, x + w - tx), th)] + RowGrid(x, w, tx + 64, ty, th)
  }

  /** The rows of tiles from row `ty` down, the last one cut at the
      bottom edge `y + h`. */
  function Grid(x: int, y: int, w: nat, h: nat, ty: int): (r: seq<Area>)
    decreases y + h - ty
  {
    if ty >= y + h then [] else RowGrid(x, w, x, ty, Min(64, y + h - ty)) + Grid(x, y, w, h, ty + 64)
  }

  /** A finished row of tiles draws exactly the grid of the row. */
  lemma {:induction false} TileRowAreas(m: M, x: int, w: nat, tx: int, ty: int, th: nat)
    requires |m.pb| == BufferBytes && 1 <= th <= 64 && TileRow(m, x, w, tx, ty, th).v.Ok?
    ensures Areas(TileRow(m, x, w, tx, ty, th).calls) == RowGrid(x, w, tx, ty, th)
    decreases x + w - tx
  {
    if tx < x + w {
      var t := Tile(m, tx, ty, Min(64, x + w - tx), th);
      var rest := TileRow(t.m, x, w, tx + 64, ty, th);
      assert TileRow(m, x, w, tx, ty, th) == Drawn(rest.m, t.calls + rest.calls, rest.v);
      TileRowAreas(t.m, x, w, tx + 64, ty, th);
      AreasAppend(t.calls, rest.calls);
    }
  }

  /** A finished rectangle draws exactly the grid of its tiles, in
      row-major order. */
  lemma {:induction false} TileRowsAreas(m: M, x: int, y: int, w: nat, h: nat, ty: int)
    requires |m.pb| == BufferBytes && TileRows(m, x, y, w, h, ty).v.Ok?
    ensures Areas(TileRows(m, x, y, w, h, ty).calls) == Grid(x, y, w, h, ty)
    decreases y + h - ty
  {
    if ty < y + h {
      var row := TileRow(m, x, w, x, ty, Min(64, y + h - ty));
      var rest := TileRows(row.m, x, y, w, h, ty + 64);
      assert TileRows(m, x, y, w, h, ty) == Drawn(rest.m, row.calls + rest.calls, rest.v);
      TileRowAreas(m, x, w, x, ty, Min(64, y + h - ty));
      TileRowsAreas(row.m, x, y, w, h, ty + 64);
      AreasAppend(row.calls, rest.calls);
    }
  }

  /** A row from `tx` has one tile per 64 columns, tile `k` at
      `tx + 64 k`. */
  lemma {:induction false} RowGridAt(x: int, w: nat, tx: int, ty: int, th: nat, k: nat)
    requires tx <= x + w
    ensures var g := RowGrid(x, w, tx, ty, th);
            |g| == CeilDiv(x + w - tx, 64) &&
            (k < |g| ==> g[k] == Area(tx + 64 * k, ty, Min(64, x + w - tx - 64 * k), th))
    decreases x + w - tx
  {
    if tx < x + w {
      CeilDivStep(x + w - tx, 64);
      if tx + 64 <= x + w {
        RowGridAt(x, w, tx + 64, ty, th, if k == 0 then 0 else k - 1);
      }
    }
  }

  /** The tile in row `r` and column `c` of the grid is entry
      `r * cols + c`, at `(x + 64 c, ty + 64 r)`. */
  lemma {:induction false} GridAt(x: int, y: int, w: nat, h: nat, ty: int, r: nat, c: nat, i: nat)
    requires ty <= y + h && r < CeilDiv(y + h - ty, 64) && c < CeilDiv(w, 64)
    requires i == r * CeilDiv(w, 64) + c
    ensures var g := Grid(x, y, w, h, ty);
            i < |g| && g[i] == Area(x + 64 * c, ty + 64 * r, Min(64, w - 64 * c), Min(64, y + h - ty - 64 * r))
    decreases y + h - ty
  {
    var cols := CeilDiv(w, 64);
    var row := RowGrid(x, w, x, ty, Min(64, y + h - ty));
    var rest := Grid(x, y, w, h, ty + 64);
    RowGridAt(x, w, x, ty, Min(64, y + h - ty), c);
    CeilDivStep(y + h - ty, 64);
    if r > 0 {
      var j := (r - 1) * cols + c;
      MulPred(r, cols);
      GridAt(x, y, w, h, ty + 64, r - 1, c, j);
      assert (row + rest)[cols + j] == rest[j];
    } else {
      assert (row + rest)[c] == row[c];
    }
  }

  /** A finished rectangle is drawn tile by tile in row-major order: the
      tile in row `r` and column `c` is call `r * cols + c`, at
      `(x + 64 c, ty + 64 r)`, 64x64 except in the last column and row. */
  lemma {:induction false} TileRowsGeometry(m: M, x: int, y: int, w: nat, h: nat, ty: int, r: nat, c: nat, i: nat)
    requires |m.pb| == BufferBytes && ty <= y + h && TileRows(m, x, y, w, h, ty).v.Ok?
    requires r < CeilDiv(y + h - ty, 64) && c < CeilDiv(w, 64) && i == r * CeilDiv(w, 64) + c
    ensures var d := TileRows(m, x, y, w, h, ty);
            i < |d.calls| &&
            AreaOf(d.calls[i]) == Area(x + 64 * c, ty + 64 * r, Min(64, w - 64 * c), Min(64, y + h - ty - 64 * r))
  {
    TileRowsAreas(m, x, y, w, h, ty);
    GridAt(x, y, w, h, ty, r, c, i);
  }

  // ----- decodeRect -----

  /** The resume state: the block length once read (0 before), the zlib
      stream, and the pixel buffer. */
  datatype ZrleState = ZrleState(length: nat, z: ZState, pb: seq<byte>)

  /** The block: wait for all of it, stage it on the stream, decode the
      tiles from what it inflates to. The length is cleared only when the
      rectangle is done. */
  function Body(st: ZrleState, u: seq<byte>, x: int, y: int, w: nat, h: nat, codec: Codec): (o: Outcome<ZrleState>)
    requires |st.pb| == BufferBytes
    ensures |o.state.pb| == BufferBytes
  {
    if |u| < st.length then Outcome(st, 0, [], Ok(false))
    else
      var z := Feed(st.z, codec, u[..st.length]);
      var d := TileRows(M(z.avail, st.pb), x, y, w, h, y);
      Outcome(ZrleState(if d.v.Ok? then 0 else st.length, ZState(z.history, d.m.rest), d.m.pb),
              st.length, d.calls, if d.v.Ok? then Ok(true) else Err(d.v.msg))
  }

  /** A whole block inflates to the stream its tiles are read from. */
  lemma {:induction false} BodyFed(st: ZrleState, u: seq<byte>, x: int, y: int, w: nat, h: nat, codec: Codec, d: Drawn)
    requires |st.pb| == BufferBytes && st.length <= |u|
    requires d == TileRows(M(codec(st.z.history, u[..st.length]), st.pb), x, y, w, h, y)
    ensures Body(st, u, x, y, w, h, codec) ==
            Outcome(ZrleState(if d.v.Ok? then 0 else st.length, ZState(st.z.history + [u[..st.length]], d.m.rest), d.m.pb),
                    st.length, d.calls, if d.v.Ok? then Ok(true) else Err(d.v.msg))
  {
  }

  /** One `decodeRect` call on the unread bytes `u`. */
  function Step(st: ZrleState, u: seq<byte>, x: int, y: int, w: nat, h: nat, codec: Codec): (o: Outcome<ZrleState>)
    requires |st.pb| == BufferBytes
    ensures |o.state.pb| == BufferBytes
  {
    if st.length == 0 then
      if |u| < 4 then Outcome(st, 0, [], Ok(false))
      else After(4, Body(st.(length := U32(u[..4])), u[4..], x, y, w, h, codec))
    else Body(st, u, x, y, w, h, codec)
  }

  /** A call that returns false draws nothing and leaves the stream and
      the pixel buffer alone. It consumes the length field when it reads
      it, and then only a nonzero length can leave it waiting. */
  lemma {:induction false} StepWaits(st: ZrleState, u: seq<byte>, x: int, y: int, w: nat, h: nat, codec: Codec)
    requires |st.pb| == BufferBytes && Step(st, u, x, y, w, h, codec).result == Ok(false)
    ensures var o := Step(st, u, x, y, w, h, codec);
            o.calls == [] && o.state.z == st.z && o.state.pb == st.pb &&
            (st.length == 0 && |u| < 4 ==> o.consumed == 0 && o.state.length == 0) &&
            (st.length == 0 && |u| >= 4 ==> o.consumed == 4 && o.state.length == U32(u[..4]) > 0) &&
            (st.length > 0 ==> o.consumed == 0 && o.state.length == st.length)
  {
  }

  /** A call that does not return false consumes the length field if it
      was not read before, then the whole block, and has fed exactly that
      block to the stream. The length is cleared when the rectangle is done
      and kept when a tile throws. */
  lemma {:induction false} StepDone(st: ZrleState, u: seq<byte>, x: int, y: int, w: nat, h: nat, codec: Codec)
    requires |st.pb| == BufferBytes && Step(st, u, x, y, w, h, codec).result != Ok(false)
    ensures var o := Step(st, u, x, y, w, h, codec);
            var head := if st.length == 0 then 4 else 0;
            head <= o.consumed <= |u| &&
            (st.length == 0 ==> o.consumed - head == U32(u[..4])) &&
            (st.length > 0 ==> o.consumed == st.length) &&
            o.state.z.history == st.z.history + [u[head..o.consumed]] &&
            (o.result == Ok(true) ==> o.state.length == 0) &&
            (o.result.Err? ==> o.state.length == o.consumed - head)
  {
    if st.length == 0 {
      var len := U32(u[..4]);
      assert u[4..][..len] == u[4..4 + len];
    }
  }

  /** Delivering a rectangle in two parts, with a call that returns false
      in between, draws and consumes what one call on all the bytes does. */
  lemma {:induction false} StepResume(st: ZrleState, u1: seq<byte>, u2: seq<byte>, x: int, y: int, w: nat, h: nat, codec: Codec)
    requires |st.pb| == BufferBytes && Step(st, u1, x, y, w, h, codec).result == Ok(false)
    ensures var o1 := Step(st, u1, x, y, w, h, codec);
            o1.consumed <= |u1| &&
            Step(st, u1 + u2, x, y, w, h, codec) == Then(o1, Step(o1.state, u1[o1.consumed..] + u2, x, y, w, h, codec))
  {
    var o1 := Step(st, u1, x, y, w, h, codec);
    if st.length == 0 && |u1| >= 4 {
      assert (u1 + u2)[..4] == u1[..4];
      assert (u1 + u2)[4..] == u1[4..] + u2;
    } else {
      assert u1[0..] + u2 == u1 + u2;
    }
  }

  /** Bytes after a call that does not return false are left for the next
      rectangle: they change nothing about that call. */
  lemma {:induction false} StepExtend(st: ZrleState, u1: seq<byte>, u2: seq<byte>, x: int, y: int, w: nat, h: nat, codec: Codec)
    requires |st.pb| == BufferBytes && Step(st, u1, x, y, w, h, codec).result != Ok(false)
    ensures Step(st, u1 + u2, x, y, w, h, codec) == Step(st, u1, x, y, w, h, codec)
  {
    if st.length == 0 {
      assert (u1 + u2)[..4] == u1[..4];
      var len := U32(u1[..4]);
      assert (u1 + u2)[4..][..len] == u1[4..][..len];
    } else {
      assert (u1 + u2)[..st.length] == u1[..st.length];
    }
  }

  // ----- The decoder object -----

  /** Writing pixel `i` of the widened triples over a buffer that holds
      the first `i` of them extends the widened prefix by one pixel. */
  lemma {:induction false} WidenStep(data: seq<byte>, p0: seq<byte>, i: nat, a: seq<byte>, b: seq<byte>)
    requires 3 * i + 3 <= |data| && 4 * i + 4 <= |p0|
    requires a == Expand(data[..3 * i]) + p0[4 * i..]
    requires b == a[..4 * i] + (data[3 * i..3 * i + 3] + [255]) + a[4 * i + 4..]
    ensures b == Expand(data[..3 * (i + 1)]) + p0[4 * (i + 1)..]
  {
    var e := Expand(data[..3 * i]);
    ExpandGrow(data, i);
    assert a[..4 * i] == e;
    assert a[4 * i + 4..] == p0[4 * (i + 1)..];
  }

  /** One more triple widens to one more pixel at the end. */
  lemma {:induction false} ExpandGrow(data: seq<byte>, i: nat)
    requires 3 * i + 3 <= |data|
    ensures Expand(data[..3 * i + 3]) == Expand(data[..3 * i]) + (data[3 * i..3 * i + 3] + [255])
  {
    var e, f := Expand(data[..3 * i]), Expand(data[..3 * i + 3]);
    forall p | 0 <= p < 4 * i
      ensures f[p] == e[p]
    {
      assert p / 4 < i;
    }
    ExpandAt(data[..3 * i + 3], i);
    assert data[..3 * i + 3][3 * i..3 * i + 3] == data[3 * i..3 * i + 3];
  }

  /** A pixel written at `i` extends the prefix of `i` pixels by one ... */
  lemma {:induction false} PutExtends(a: seq<byte>, i: nat, c: seq<byte>)
    requires |c| == 4 && 4 * i + 4 <= |a|
    ensures (a[..4 * i] + c + a[4 * i + 4..])[..4 * i + 4] == a[..4 * i] + c
  {
  }

  /** ... and leaves every shorter prefix alone. */
  lemma {:induction false} PutKeeps(a: seq<byte>, i: nat, c: seq<byte>, n: nat)
    requires |c| == 4 && 4 * i + 4 <= |a| && n <= 4 * i
    ensures (a[..4 * i] + c + a[4 * i + 4..])[..n] == a[..n]
  {
  }

  /** One step of `_decodeRLETile`'s loop, taken or failed. */
  /** One run of an RLE tile, once it has been read: `after` is the state past it. */
  lemma {:induction false} RleRunsNext(m: M, left: nat, acc: seq<byte>, after: M, v: nat)
    requires |m.pb| == BufferBytes && left > 0 && RleRun(m) == Z(after, Ok(v))
    ensures RleRuns(m, left, acc) ==
            RleRuns(after, left - Min(v, left), acc + Repeat(after.pb[..4], Min(v, left)))
  {
  }

  /** One run of an RLE palette tile that passes both checks. */
  lemma {:induction false} RlePaletteNext(m: M, ps: nat, left: nat, acc: seq<byte>, after: M, idx: nat, len: nat)
    requires |m.pb| == BufferBytes && ps <= 127 && left > 0
    requires RunHeader(m) == Z(after, Ok((idx, len))) && idx <= ps && len <= left
    ensures RlePaletteRuns(m, ps, left, acc) ==
            RlePaletteRuns(after, ps, left - len, acc + Repeat(Colour(after.pb, idx), len))
  {
  }

  /** One run of an RLE palette tile read from `m` leaves `after` and, when
      it fits, the tile buffer `t`: what is left of the tile is the rest of
      the runs that `m` starts. */
  lemma {:induction false} RlePaletteStepped(m: M, ps: nat, size: nat, offset: nat, acc: seq<byte>,
                                             goal: Z<seq<byte>>, after: M, r: Result<nat>, t: seq<byte>)
    requires |m.pb| == BufferBytes && ps <= 127 && offset < size
    requires RlePaletteRuns(m, ps, size - offset, acc) == goal
    requires var h := RunHeader(m);
             after == h.m &&
             (r.Ok? <==> h.v.Ok? && h.v.value.0 <= ps && offset + h.v.value.1 <= size) &&
             (r.Err? ==> r.msg == (if h.v.Err? then h.v.msg else if h.v.value.0 > ps then TooBigIndex else TooBigLength)) &&
             (r.Ok? ==>
                r.value == offset + h.v.value.1 && 4 * r.value <= |t| &&
                t[..4 * r.value] == acc + Repeat(Colour(h.m.pb, h.v.value.0), h.v.value.1))
    ensures r.Err? ==> after == goal.m && goal.v.Err? && r.msg == goal.v.msg
    ensures r.Ok? ==> offset < r.value <= size && RlePaletteRuns(after, ps, size - r.value, t[..4 * r.value]) == goal
  {
    var h := RunHeader(m);
    RlePaletteStop(m, ps, size - offset, acc, h.m, h.v);
    if r.Ok? {
      RlePaletteNext(m, ps, size - offset, acc, h.m, h.v.value.0, h.v.value.1);
    }
  }

  /** One run of an RLE palette tile that stops the tile. */
  lemma {:induction false} RlePaletteStop(m: M, ps: nat, left: nat, acc: seq<byte>, after: M, h: Result<(nat, nat)>)
    requires |m.pb| == BufferBytes && ps <= 127 && left > 0 && RunHeader(m) == Z(after, h)
    ensures h.Err? ==> RlePaletteRuns(m, ps, left, acc) == Z(after, Err(h.msg))
    ensures h.Ok? && h.value.0 > ps ==> RlePaletteRuns(m, ps, left, acc) == Z(after, Err(TooBigIndex))
    ensures h.Ok? && h.value.0 <= ps && h.value.1 > left ==>
              RlePaletteRuns(m, ps, left, acc) == Z(after, Err(TooBigLength))
  {
  }

  lemma {:induction false} RleRunsUnfold(m: M, left: nat, acc: seq<byte>)
    requires |m.pb| == BufferBytes && left > 0
    ensures var n := RleRun(m);
            (n.v.Err? ==> RleRuns(m, left, acc) == Z(n.m, Err(n.v.msg))) &&
            (n.v.Ok? ==>
               RleRuns(m, left, acc) ==
               RleRuns(n.m, left - Min(n.v.value, left), acc + Repeat(Colour(n.m.pb, 0), Min(n.v.value, left))))
  {
  }

  /** Index `x`, `slot` indices into byte `bi` of a packed row, is that
      byte's bits at the shift of `slot`. */
  lemma {:induction false} PackedStep(row: seq<byte>, bpp: nat, bi: nat, slot: nat, x: nat)
    requires bpp == 1 || bpp == 2 || bpp == 4
    requires slot < PerByte(bpp) && x == Times(bi, PerByte(bpp)) + slot && bi < |row|
    ensures x < Times(|row|, PerByte(bpp))
    ensures PackedIndex(row, bpp, x) == Unpack(row[bi], Shift(bpp, slot), bpp)
  {
    QuotRemOf(bi, PerByte(bpp), slot);
    TimesMono(bi + 1, |row|, PerByte(bpp));
    PackedIndexQuot(row, bpp, x);
  }

  /** A byte after one whose indices end before the row does is inside the row. */
  lemma {:induction false} NextByteInRow(tw: nat, bpp: nat, bi: nat)
    requires bpp == 1 || bpp == 2 || bpp == 4
    requires Times(bi + 1, PerByte(bpp)) < tw
    ensures bi + 1 < RowBytes(tw, bpp)
  {
    TimesBelow(bi + 1, RowBytes(tw, bpp), PerByte(bpp));
  }

  /** A row whose last index is in byte `bi` has `bi + 1` bytes. */
  lemma {:induction false} RowEnd(tw: nat, bpp: nat, bi: nat, slot: nat)
    requires bpp == 1 || bpp == 2 || bpp == 4
    requires 1 <= slot <= PerByte(bpp) && tw == Times(bi, PerByte(bpp)) + slot
    ensures RowBytes(tw, bpp) == bi + 1
  {
    var k := PerByte(bpp);
    var r := RowBytes(tw, bpp);
    TimesNext(bi, k);
    TimesBelow(bi, r, k);
    TimesBelow(r - 1, bi + 1, k);
  }

  /** The first `n` pixels of a packed row depend only on the bytes they use. */
  lemma {:induction false} RowPixelsPrefix(row: seq<byte>, longer: seq<byte>, pal: seq<byte>, bpp: nat, n: nat)
    requires bpp == 1 || bpp == 2 || bpp == 4
    requires |pal| == BufferBytes && row <= longer && n <= Times(|row|, PerByte(bpp))
    ensures n <= Times(|longer|, PerByte(bpp))
    ensures RowPixels(row, pal, bpp, n) == RowPixels(longer, pal, bpp, n)
  {
    var k := PerByte(bpp);
    TimesMono(|row|, |longer|, k);
    forall c | 0 <= c < n
      ensures PackedIndex(row, bpp, c) == PackedIndex(longer, bpp, c)
    {
      PackedIndexQuot(row, bpp, c);
      PackedIndexQuot(longer, bpp, c);
      assert row[Quot(c, k)] == longer[Quot(c, k)];
    }
  }


  /** Decoding the packed bytes `row` (the first one already in hand when
      the row starts) has reached index `x`: `encoded` is byte `bi` of the
      row, `slot` of its indices are used, `shift` is the source's shift
      for the next index, and `avail` is what follows byte `bi`. */
  ghost predicate RowAt(row: seq<byte>, bpp: nat, tw: nat,
                        x: nat, bi: nat, slot: nat, shift: int, encoded: byte, avail: seq<byte>)
    requires bpp == 1 || bpp == 2 || bpp == 4
  {
    var k := PerByte(bpp);
    x <= tw && slot <= k && x == Times(bi, k) + slot &&
    shift == Shift(bpp, slot) && x <= Times(bi + 1, k) &&
    bi < RowBytes(tw, bpp) && bi < |row| && avail == row[bi + 1..] && encoded == row[bi]
  }

  /** An index of the byte in hand moves the row on by one. */
  lemma {:induction false} RowAtNext(row: seq<byte>, bpp: nat, tw: nat,
                  x: nat, bi: nat, slot: nat, shift: int, encoded: byte, avail: seq<byte>)
    requires bpp == 1 || bpp == 2 || bpp == 4
    requires RowAt(row, bpp, tw, x, bi, slot, shift, encoded, avail) && x < tw && slot < PerByte(bpp)
    ensures RowAt(row, bpp, tw, x + 1, bi, slot + 1, shift - bpp, encoded, avail)
  {
  }

  /** The next pixel of a row is the entry its index in the byte in hand names. */
  lemma {:induction false} RowPixelsNext(row: seq<byte>, pal: seq<byte>, bpp: nat, x: nat, bi: nat, slot: nat, sh: nat)
    requires bpp == 1 || bpp == 2 || bpp == 4
    requires |pal| == BufferBytes && slot < PerByte(bpp) && x == Times(bi, PerByte(bpp)) + slot
    requires bi < |row| && sh == Shift(bpp, slot)
    ensures x + 1 <= Times(|row|, PerByte(bpp))
    ensures RowPixels(row, pal, bpp, x + 1) == RowPixels(row, pal, bpp, x) + Colour(pal, Unpack(row[bi], sh, bpp))
  {
    PackedStep(row, bpp, bi, slot, x);
    RowPixelsGrow(row, pal, bpp, x);
  }

  /** The pixel that the index in hand names, painted after the row's
      pixels so far, moves the row on by one pixel. */
  lemma {:induction false} PixelPainted(row: seq<byte>, pre: seq<byte>, pal: seq<byte>, bpp: nat, tw: nat, x: nat,
                                        bi: nat, slot: nat, shift: nat, encoded: byte, avail: seq<byte>,
                                        before: seq<byte>, after: seq<byte>)
    requires bpp == 1 || bpp == 2 || bpp == 4
    requires |pal| == BufferBytes && x < tw && slot < PerByte(bpp) && x < Times(|row|, PerByte(bpp))
    requires RowAt(row, bpp, tw, x, bi, slot, shift, encoded, avail)
    requires before == pre + RowPixels(row, pal, bpp, x)
    requires after == before + Colour(pal, Unpack(encoded, shift, bpp))
    ensures RowAt(row, bpp, tw, x + 1, bi, slot + 1, shift - bpp, encoded, avail)
    ensures x + 1 <= Times(|row|, PerByte(bpp)) && after == pre + RowPixels(row, pal, bpp, x + 1)
  {
    RowPixelsNext(row, pal, bpp, x, bi, slot, shift);
    AppendAssocBytes(pre, RowPixels(row, pal, bpp, x), Colour(pal, Unpack(encoded, shift, bpp)));
    RowAtNext(row, bpp, tw, x, bi, slot, shift, encoded, avail);
  }

  lemma {:induction false} ConsSlices(first: byte, s: seq<byte>, n: nat)
    requires n <= |s|
    ensures ([first] + s)[..n + 1] == [first] + s[..n] && ([first] + s)[n + 1..] == s[n..]
  {
  }

  lemma {:induction false} HeadSlices(s: seq<byte>, o: nat, n: nat)
    requires 1 <= n && o + n <= |s|
    ensures [s[o]] + s[o + 1..][..n - 1] == s[o..o + n] && s[o + 1..][n - 1..] == s[o + n..]
  {
  }

  /** Row loop of a palette tile before row `y` of `th`: the first `y`
      rows of `rb` bytes are read, and unless all are, `e` is the first
      byte of row `y` and `avail` what follows it. */
  ghost predicate RowsAhead(s: seq<byte>, rb: nat, th: nat, y: nat, e: byte, avail: seq<byte>)
  {
    y <= th && Times(y, rb) <= |s| &&
    (y < th ==> Times(y, rb) < |s| && avail == s[Times(y, rb) + 1..] && e == s[Times(y, rb)]) &&
    (y == th ==> avail == s[Times(th, rb)..])
  }

  /** The first byte of the first row starts the row loop. */
  lemma {:induction false} RowsFirst(s: seq<byte>, rb: nat, th: nat, e: byte, avail: seq<byte>)
    requires 1 <= th && |s| > 0 && e == s[0] && avail == s[1..]
    ensures RowsAhead(s, rb, th, 0, e, avail)
  {
  }

  /** After the last row the loop has read exactly `th` rows. */
  lemma {:induction false} RowsLast(s: seq<byte>, rb: nat, th: nat, y: nat, e: byte, avail: seq<byte>)
    requires 1 <= rb && y + 1 == th && Times(th, rb) <= |s|
    requires avail == s[Times(y, rb) + 1..][rb - 1..]
    ensures RowsAhead(s, rb, th, th, e, avail)
  {
    TimesNext(y, rb);
    HeadSlices(s, Times(y, rb), rb);
  }

  /** The byte after a row that is not the last one starts the next row;
      when there is none, the stream is short of the whole tile. */
  lemma {:induction false} RowsNext(s: seq<byte>, rb: nat, th: nat, y: nat, e: byte, rest: seq<byte>)
    requires 1 <= rb && y + 1 < th && Times(y, rb) + rb <= |s|
    requires rest == s[Times(y, rb) + 1..][rb - 1..]
    ensures |rest| == 0 ==> Times(th, rb) > |s|
    ensures |rest| > 0 ==> RowsAhead(s, rb, th, y + 1, rest[0], rest[1..])
  {
    TimesNext(y, rb);
    TimesNext(y + 1, rb);
    HeadSlices(s, Times(y, rb), rb);
    TimesMono(y + 2, th, rb);
    if |rest| > 0 {
      assert rest[1..] == s[Times(y + 1, rb) + 1..];
    }
  }

  /** Row `y` of `th` rows of `tw` pixels ends inside the tile. */
  lemma {:induction false} RowFits(y: nat, th: nat, tw: nat)
    requires y < th <= 64 && tw <= 64
    ensures Times(y, tw) + tw == Times(y + 1, tw) <= 4096
  {
    TimesNext(y, tw);
    TimesMono(y + 1, th, tw);
    TileFits(tw, th);
  }

  /** A stream too short for row `y` is too short for the tile. */
  lemma {:induction false} RowShort(s: seq<byte>, rb: nat, th: nat, y: nat, e: byte, avail: seq<byte>)
    requires RowsAhead(s, rb, th, y, e, avail) && y < th && rb - 1 > |avail|
    ensures Times(th, rb) > |s|
  {
    TimesNext(y, rb);
    TimesMono(y + 1, th, rb);
  }

  /** Row `y` read from the bytes after its first byte `e` extends the
      pixels of the rows before it to those of `y + 1` rows. */
  lemma {:induction false} RowDone(s: seq<byte>, pal: seq<byte>, bpp: nat, tw: nat, th: nat, y: nat, offset: nat,
                                   e: byte, avail: seq<byte>, before: seq<byte>, after: seq<byte>)
    requires bpp == 1 || bpp == 2 || bpp == 4
    requires |pal| == BufferBytes && 1 <= tw <= 64 && y < th <= 64 && offset == Times(y, tw)
    requires RowsAhead(s, RowBytes(tw, bpp), th, y, e, avail)
    requires before == PaletteRows(s, pal, bpp, tw, RowBytes(tw, bpp), y) && RowBytes(tw, bpp) - 1 <= |avail|
    requires after == before + RowPixels([e] + avail[..RowBytes(tw, bpp) - 1], pal, bpp, tw)
    ensures var rb := RowBytes(tw, bpp);
            1 <= rb && Times(y + 1, rb) <= |s| && avail[rb - 1..] == s[Times(y, rb) + 1..][rb - 1..] &&
            offset + tw == Times(y + 1, tw) <= 4096 && after == PaletteRows(s, pal, bpp, tw, rb, y + 1)
  {
    var rb := RowBytes(tw, bpp);
    TimesNext(y, rb);
    RowFits(y, th, tw);
    RowsStep(s, rb, y, pal, bpp, tw, e, before, after);
  }

  /** A row read after the rows before it extends their pixels. */
  lemma {:induction false} RowsStep(s: seq<byte>, rb: nat, y: nat, pal: seq<byte>, bpp: nat, tw: nat, e: byte,
                 before: seq<byte>, after: seq<byte>)
    requires bpp == 1 || bpp == 2 || bpp == 4
    requires |pal| == BufferBytes && rb == RowBytes(tw, bpp) && 1 <= tw && Times(y, rb) + rb <= |s|
    requires e == s[Times(y, rb)] && before == PaletteRows(s, pal, bpp, tw, rb, y)
    requires after == before + RowPixels([e] + s[Times(y, rb) + 1..][..rb - 1], pal, bpp, tw)
    ensures Times(y + 1, rb) <= |s| && after == PaletteRows(s, pal, bpp, tw, rb, y + 1)
  {
    var o := Times(y, rb);
    TimesNext(y, rb);
    HeadSlices(s, o, rb);
    PaletteRowsNext(s, pal, bpp, tw, rb, y + 1);
  }

  /** A row whose last index is slot `slot` of byte `bi` used `bi + 1`
      bytes, the first in hand and `bi` more from `s`; `t`, the row's
      pixels after `pre`, are then those of exactly these bytes. */
  lemma {:induction false} RowFinish(row: seq<byte>, first: byte, s: seq<byte>, pal: seq<byte>, bpp: nat, tw: nat, bi: nat, slot: nat,
                  t: seq<byte>, pre: seq<byte>)
    requires bpp == 1 || bpp == 2 || bpp == 4
    requires row == [first] + s && |pal| == BufferBytes && bi < |row|
    requires 1 <= slot <= PerByte(bpp) && tw == Times(bi, PerByte(bpp)) + slot
    requires tw <= Times(|row|, PerByte(bpp)) && t == pre + RowPixels(row, pal, bpp, tw)
    ensures RowBytes(tw, bpp) - 1 == bi && row[bi + 1..] == s[bi..]
    ensures t == pre + RowPixels([first] + s[..RowBytes(tw, bpp) - 1], pal, bpp, tw)
  {
    RowEnd(tw, bpp, bi, slot);
    ConsSlices(first, s, bi);
    RowPixelsPrefix(row[..bi + 1], row, pal, bpp, tw);
  }

  class ZRLEDecoder {
    /** The length of the zlib block once read; 0 before. */
    var length: nat
    const inflator: Inflator
    const pixelBuffer: array<byte>
    const tileBuffer: array<byte>

    ghost predicate Valid()
      reads this
    {
      pixelBuffer.Length == BufferBytes && tileBuffer.Length == BufferBytes && pixelBuffer != tileBuffer
    }

    /** The decompressed bytes not yet read and the pixel buffer. */
    ghost function Cur(): M
      reads this, inflator, pixelBuffer
    {
      M(inflator.avail, pixelBuffer[..])
    }

    /** The resume fields as a value. */
    ghost function State(): ZrleState
      reads this, inflator, pixelBuffer
    {
      ZrleState(length, inflator.State(), pixelBuffer[..])
    }

    /** One call left the decoder, the read cursor and the display log as
        outcome `o` of a call that started at cursor `i0` with log `l0`. */
    ghost predicate Leaves(o: Outcome<ZrleState>, sock: Socket, display: Display, i0: nat, l0: seq<Call>, r: Result<bool>)
      reads this, inflator, pixelBuffer, sock, display
    {
      State() == o.state && sock.index == i0 + o.consumed && display.log == l0 + o.calls && r == o.result
    }

    constructor(codec: Codec)
      ensures Valid() && inflator.codec == codec
      ensures fresh(inflator) && fresh(pixelBuffer) && fresh(tileBuffer)
      ensures State() == ZrleState(0, ZState([], []), Zeros(BufferBytes))
    {
      length := 0;
      inflator := new Inflator(codec);
      pixelBuffer := new byte[BufferBytes](_ => 0);
      tileBuffer := new byte[BufferBytes](_ => 0);
      new;
      assert pixelBuffer[..] == Zeros(BufferBytes);
    }

    /** `inflate(1)[0]`. */
    method InflateByte() returns (r: Result<byte>)
      modifies inflator
      ensures inflator.history == old(inflator.history)
      ensures Z(Cur(), r) == NextByte(old(Cur()))
    {
      var s := inflator.Inflate(1);
      if s.Err? {
        return Err(s.msg);
      }
      r := Ok(s.value[0]);
    }

    /** `_readPixels(n)`. */
    method InflatePixels(n: nat) returns (r: Result<()>)
      requires Valid() && n <= 4096
      modifies inflator, pixelBuffer
      ensures inflator.history == old(inflator.history)
      ensures Z(Cur(), r) == ReadPixels(old(Cur()), n)
    {
      ghost var a0 := inflator.avail;
      var buffer := inflator.Inflate(3 * n);
      if buffer.Err? {
        return Err(buffer.msg);
      }
      assert buffer.value == a0[..3 * n] && inflator.avail == a0[3 * n..];
      Widen(buffer.value, n);
      r := Ok(());
    }

    /** The pixel loop of `_readPixels`: triple `i` of `data` becomes
        pixel `i` of the pixel buffer, alpha 255. */
    method Widen(data: seq<byte>, n: nat)
      requires Valid() && |data| == 3 * n && n <= 4096
      modifies pixelBuffer
      ensures pixelBuffer[..] == Expand(data) + old(pixelBuffer[..])[4 * n..]
    {
      ghost var p0 := pixelBuffer[..];
      var i := 0;
      while i < n
        invariant i <= n
        invariant pixelBuffer[..] == Expand(data[..3 * i]) + p0[4 * i..]
      {
        var c := data[3 * i..3 * i + 3] + [255];
        ghost var before := pixelBuffer[..];
        PutPixel(pixelBuffer, i, c);
        WidenStep(data, p0, i, before, pixelBuffer[..]);
        i := i + 1;
      }
      assert data[..3 * n] == data;
    }

    /** `_readRLELength`: bytes are added up while they are 255. */
    method ReadRunLength() returns (r: Result<nat>)
      modifies inflator
      ensures inflator.history == old(inflator.history)
      ensures Z(Cur(), r) == RunLength(old(Cur()), 0)
    {
      var len: nat := 0;
      while true
        invariant inflator.history == old(inflator.history)
        invariant RunLength(Cur(), len) == RunLength(old(Cur()), 0)
        decreases |inflator.avail|
      {
        var current := InflateByte();
        if current.Err? {
          return Err(current.msg);
        }
        len := len + current.value as nat;
        if current.value != 255 {
          return Ok(len + 1);
        }
      }
    }

    /** The inner loop of `_decodeRLETile`: `len` pixels of colour `c`
        from pixel `i0` on. Pixels past the tile land in the rest of the
        tile buffer, and those past the buffer are dropped, as a typed
        array drops writes out of range. */
    method PaintRun(i0: nat, len: nat, c: seq<byte>, size: nat) returns (i: nat)
      requires Valid() && |c| == 4 && i0 < size <= 4096
      modifies tileBuffer
      ensures i == i0 + len
      ensures tileBuffer[..4 * Min(i, size)] == old(tileBuffer[..4 * i0]) + Repeat(c, Min(i, size) - i0)
      ensures Min(i, size) == i0 + Min(len, size - i0)
    {
      i := i0;
      var j := 0;
      while j < len
        invariant i == i0 + j && j <= len
        invariant tileBuffer[..4 * Min(i, size)] == old(tileBuffer[..4 * i0]) + Repeat(c, Min(i, size) - i0)
      {
        ghost var t := tileBuffer[..];
        if i < 4096 {
          PutPixel(tileBuffer, i, c);
          if i < size {
            PutExtends(t, i, c);
          } else {
            PutKeeps(t, i, c, 4 * size);
          }
        }
        i := i + 1;
        j := j + 1;
      }
    }

    /** One run of an RLE tile: its colour, its length, and the pixels it paints from `i0` on. */
    method DecodeRleRun(i0: nat, size: nat) returns (r: Result<nat>)
      requires Valid() && i0 < size <= 4096
      modifies inflator, pixelBuffer, tileBuffer
      ensures inflator.history == old(inflator.history)
      ensures var n := RleRun(old(Cur()));
              Cur() == n.m && (r.Ok? <==> n.v.Ok?) && (r.Err? ==> r.msg == n.v.msg) &&
              (r.Ok? ==>
                 r.value == i0 + n.v.value &&
                 tileBuffer[..4 * Min(r.value, size)] ==
                 old(tileBuffer[..4 * i0]) + Repeat(n.m.pb[..4], Min(n.v.value, size - i0)))
    {
      var p := InflatePixels(1);
      if p.Err? {
        return Err(p.msg);
      }
      var n := ReadRunLength();
      if n.Err? {
        return Err(n.msg);
      }
      var c := pixelBuffer[..4];
      var i := PaintRun(i0, n.value, c, size);
      r := Ok(i);
    }

    /** `_decodeRLETile`: runs of one colour until the tile is full; the
        run that fills it is not cut short. */
    method DecodeRleTile(size: nat) returns (r: Result<()>)
      requires Valid() && 1 <= size <= 4096
      modifies inflator, pixelBuffer, tileBuffer
      ensures inflator.history == old(inflator.history)
      ensures var z := RleTile(old(Cur()), size);
              Cur() == z.m && (r.Ok? <==> z.v.Ok?) && (r.Err? ==> r.msg == z.v.msg) &&
              (z.v.Ok? ==> tileBuffer[..|z.v.value|] == z.v.value)
    {
      ghost var goal := RleRuns(Cur(), size, []);
      var i: nat := 0;
      // `filled` pixels of the tile are done: all of them once `i` passes the end
      ghost var filled: nat := 0;
      while i < size
        invariant inflator.history == old(inflator.history)
        invariant RleSoFar(goal, size, i, filled)
        decreases size - i
      {
        var n := RleTileStep(goal, size, i);
        if n.Err? {
          return Err(n.msg);
        }
        i := n.value;
        filled := Min(i, size);
      }
      r := Ok(());
    }

    /** The runs read so far have drawn the first `filled` pixels of the
        tile, and the rest of the tile's runs are still to come. */
    ghost predicate RleSoFar(goal: Z<seq<byte>>, size: nat, i: nat, filled: nat)
      requires Valid()
      reads this, inflator, pixelBuffer, tileBuffer
    {
      size <= 4096 && filled <= size && filled <= i && (filled < size ==> i == filled) &&
      RleRuns(Cur(), size - filled, tileBuffer[..4 * filled]) == goal
    }

    /** One run of an RLE tile, from pixel `i` on. */
    method RleTileStep(ghost goal: Z<seq<byte>>, size: nat, i: nat) returns (r: Result<nat>)
      requires Valid() && i < size && RleSoFar(goal, size, i, i)
      modifies inflator, pixelBuffer, tileBuffer
      ensures inflator.history == old(inflator.history)
      ensures r.Err? ==> goal == Z(Cur(), Err(r.msg))
      ensures r.Ok? ==> r.value > i && RleSoFar(goal, size, r.value, Min(r.value, size))
    {
      ghost var m := Cur();
      ghost var acc := tileBuffer[..4 * i];
      var n := DecodeRleRun(i, size);
      if n.Err? {
        RleRunsUnfold(m, size - i, acc);
        return Err(n.msg);
      }
      RleRunsNext(m, size - i, acc, Cur(), n.value - i);
      assert Min(n.value, size) == i + Min(n.value - i, size - i);
      r := n;
    }

    /** The run header of an RLE palette tile: a palette index, and a run
        length after it when the top bit of the index is set. */
    method ReadRunHeader() returns (r: Result<(nat, nat)>)
      modifies inflator
      ensures inflator.history == old(inflator.history)
      ensures Z(Cur(), r) == RunHeader(old(Cur()))
    {
      var b := InflateByte();
      if b.Err? {
        return Err(b.msg);
      }
      if b.value >= 128 {
        var n := ReadRunLength();
        if n.Err? {
          return Err(n.msg);
        }
        return Ok((b.value as nat - 128, n.value));
      }
      r := Ok((b.value as nat, 1));
    }

    /** Pixel `p` of the tile buffer becomes palette entry `idx`. */
    method PaintEntry(p: nat, idx: nat)
      requires Valid() && p < 4096 && idx < 16
      modifies tileBuffer
      ensures tileBuffer[..4 * (p + 1)] == old(tileBuffer[..4 * p]) + Colour(pixelBuffer[..], idx)
    {
      ghost var t := tileBuffer[..];
      var c := pixelBuffer[4 * idx..4 * idx + 4];
      PutPixel(tileBuffer, p, c);
      PutExtends(t, p, c);
    }

    /** ... and has painted the `x` pixels before it from pixel `p0` on. */
    ghost predicate RowSoFar(row: seq<byte>, pre: seq<byte>, p0: nat, bpp: nat, tw: nat,
                             x: nat, bi: nat, slot: nat, shift: int, encoded: byte)
      requires Valid() && (bpp == 1 || bpp == 2 || bpp == 4)
      reads this, inflator, pixelBuffer, tileBuffer
    {
      p0 + tw <= 4096 && RowAt(row, bpp, tw, x, bi, slot, shift, encoded, inflator.avail) &&
      (x > 0 ==> slot >= 1) &&
      (TimesMono(bi + 1, |row|, PerByte(bpp));
       tileBuffer[..4 * (p0 + x)] == pre + RowPixels(row, pixelBuffer[..], bpp, x))
    }

    /** The head of the inner loop of `_decodePaletteTile`: a fresh byte
        once the shift has gone negative. */
    method NextPacked(ghost row: seq<byte>, bpp: nat, tw: nat,
                      x: nat, ghost bi: nat, ghost slot: nat, shift: int, encoded: byte)
      returns (r: Result<()>, ghost bi': nat, ghost slot': nat, shift': nat, encoded': byte)
      requires Valid() && (bpp == 1 || bpp == 2 || bpp == 4) && x < tw
      requires RowAt(row, bpp, tw, x, bi, slot, shift, encoded, inflator.avail)
      modifies inflator
      ensures inflator.history == old(inflator.history)
      ensures r.Err? ==> inflator.avail == [] && r.msg == Incomplete && |row| < RowBytes(tw, bpp)
      ensures r.Ok? ==>
                RowAt(row, bpp, tw, x, bi', slot', shift', encoded', inflator.avail) && slot' < PerByte(bpp)
    {
      bi', slot', shift', encoded' := bi, slot, 0, encoded;
      if shift < 0 {
        shift' := 8 - bpp;
        NextByteInRow(tw, bpp, bi);
        var b := InflateByte();
        if b.Err? {
          r := Err(b.msg);
          return;
        }
        encoded' := b.value;
        bi' := bi + 1;
        slot' := 0;
      } else {
        shift' := shift;
      }
      r := Ok(());
    }

    /** The body of the inner loop of `_decodePaletteTile` once a byte
        with an unused index is in hand: one pixel, and the shift moves on. */
    method PaintPacked(ghost row: seq<byte>, ghost pre: seq<byte>, p0: nat, bpp: nat, tw: nat,
                       x: nat, ghost bi: nat, ghost slot: nat, shift: nat, encoded: byte)
      returns (shift': int)
      requires Valid() && (bpp == 1 || bpp == 2 || bpp == 4) && x < tw && p0 + tw <= 4096
      requires RowAt(row, bpp, tw, x, bi, slot, shift, encoded, inflator.avail) && slot < PerByte(bpp)
      requires x < Times(|row|, PerByte(bpp))
      requires tileBuffer[..4 * (p0 + x)] == pre + RowPixels(row, pixelBuffer[..], bpp, x)
      modifies tileBuffer
      ensures RowSoFar(row, pre, p0, bpp, tw, x + 1, bi, slot + 1, shift', encoded)
    {
      ghost var pal := pixelBuffer[..];
      ghost var before := tileBuffer[..4 * (p0 + x)];
      var idx := Unpack(encoded, shift, bpp);
      PaintEntry(p0 + x, idx);
      PixelPainted(row, pre, pal, bpp, tw, x, bi, slot, shift, encoded, inflator.avail,
                   before, tileBuffer[..4 * (p0 + x + 1)]);
      shift' := shift - bpp;
    }

    /** One pass of the inner loop of `_decodePaletteTile`: the next byte
        once the current one is used up, then one pixel. */
    method PalettePixel(ghost row: seq<byte>, ghost pre: seq<byte>, p0: nat, bpp: nat, tw: nat,
                        x: nat, ghost bi: nat, ghost slot: nat, shift: int, encoded: byte)
      returns (r: Result<()>, ghost bi': nat, ghost slot': nat, shift': int, encoded': byte)
      requires Valid() && (bpp == 1 || bpp == 2 || bpp == 4) && x < tw
      requires RowSoFar(row, pre, p0, bpp, tw, x, bi, slot, shift, encoded)
      modifies inflator, tileBuffer
      ensures inflator.history == old(inflator.history)
      ensures r.Err? ==> inflator.avail == [] && r.msg == Incomplete && |row| < RowBytes(tw, bpp)
      ensures r.Ok? ==> RowSoFar(row, pre, p0, bpp, tw, x + 1, bi', slot', shift', encoded')
    {
      shift' := shift;
      var sh;
      r, bi', slot', sh, encoded' := NextPacked(row, bpp, tw, x, bi, slot, shift, encoded);
      if r.Err? {
        return;
      }
      PackedStep(row, bpp, bi', slot', x);
      shift' := PaintPacked(row, pre, p0, bpp, tw, x, bi', slot', sh, encoded');
      slot' := slot' + 1;
    }

    /** The inner loop of `_decodePaletteTile`: one row of pixels from
        pixel `p0` on (the source's byte offset is `4 * p0`), `first` being
        the row's first packed byte, already read. `shift` comes back as
        the source leaves it after the row. */
    method DecodePaletteRow(first: byte, p0: nat, bpp: nat, tw: nat) returns (r: Result<()>, shift: int)
      requires Valid() && (bpp == 1 || bpp == 2 || bpp == 4) && 1 <= tw && p0 + tw <= 4096
      modifies inflator, tileBuffer
      ensures inflator.history == old(inflator.history)
      ensures var need := RowBytes(tw, bpp) - 1;
              var s := old(inflator.avail);
              (r.Ok? <==> need <= |s|) &&
              (r.Err? ==> inflator.avail == [] && r.msg == Incomplete) &&
              (r.Ok? ==>
                 inflator.avail == s[need..] && shift < 8 - bpp &&
                 tileBuffer[..4 * (p0 + tw)] ==
                 old(tileBuffer[..4 * p0]) + RowPixels([first] + s[..need], pixelBuffer[..], bpp, tw))
    {
      ghost var s := inflator.avail;
      ghost var row := [first] + s;
      ghost var pre := tileBuffer[..4 * p0];
      ghost var bi, slot;
      r, bi, slot, shift := PalettePixels(row, pre, first, p0, bpp, tw);
      if r.Err? {
        assert RowBytes(tw, bpp) - 1 > |s|;
        return;
      }
      TimesMono(bi + 1, |row|, PerByte(bpp));
      RowFinish(row, first, s, pixelBuffer[..], bpp, tw, bi, slot, tileBuffer[..4 * (p0 + tw)], pre);
    }

    /** The loop of `DecodePaletteRow`: `tw` pixels, `first` being the
        first packed byte of `row`. */
    method PalettePixels(ghost row: seq<byte>, ghost pre: seq<byte>, first: byte, p0: nat, bpp: nat, tw: nat)
      returns (r: Result<()>, ghost bi: nat, ghost slot: nat, shift: int)
      requires Valid() && (bpp == 1 || bpp == 2 || bpp == 4) && 1 <= tw
      requires RowSoFar(row, pre, p0, bpp, tw, 0, 0, 0, 8 - bpp, first)
      modifies inflator, tileBuffer
      ensures inflator.history == old(inflator.history)
      ensures r.Err? ==> inflator.avail == [] && r.msg == Incomplete && |row| < RowBytes(tw, bpp)
      ensures r.Ok? ==> exists e :: RowSoFar(row, pre, p0, bpp, tw, tw, bi, slot, shift, e)
    {
      shift := 8 - bpp;
      var encoded := first;
      bi, slot := 0, 0;
      var x := 0;
      while x < tw
        invariant inflator.history == old(inflator.history)
        invariant RowSoFar(row, pre, p0, bpp, tw, x, bi, slot, shift, encoded)
        decreases tw - x
      {
        r, bi, slot, shift, encoded := PalettePixel(row, pre, p0, bpp, tw, x, bi, slot, shift, encoded);
        if r.Err? {
          return;
        }
        x := x + 1;
      }
      r := Ok(());
    }

    /** The row loop of `_decodePaletteTile` before row `y`: the pixels of
        the first `y` packed rows of `s` are in the tile buffer, colours
        from palette `pal`, and the stream is at row `y`. */
    ghost predicate RowsSoFar(s: seq<byte>, pal: seq<byte>, bpp: nat, tw: nat, th: nat,
                              y: nat, offset: nat, e: byte)
      requires Valid() && (bpp == 1 || bpp == 2 || bpp == 4)
      reads this, inflator, pixelBuffer, tileBuffer
    {
      1 <= tw <= 64 && offset == Times(y, tw) <= 4096 && pal == pixelBuffer[..] &&
      RowsAhead(s, RowBytes(tw, bpp), th, y, e, inflator.avail) &&
      tileBuffer[..4 * offset] == PaletteRows(s, pal, bpp, tw, RowBytes(tw, bpp), y)
    }

    /** One pass of the row loop of `_decodePaletteTile`: row `y`, whose
        first packed byte `e` is in hand, then the first byte of the next
        row unless this one is the last. */
    method PaletteRowStep(ghost s: seq<byte>, ghost pal: seq<byte>, bpp: nat, tw: nat, th: nat,
                          y: nat, offset: nat, e: byte)
      returns (r: Result<()>, e': byte)
      requires Valid() && (bpp == 1 || bpp == 2 || bpp == 4) && y < th <= 64
      requires RowsSoFar(s, pal, bpp, tw, th, y, offset, e)
      modifies inflator, tileBuffer
      ensures inflator.history == old(inflator.history)
      ensures r.Err? ==> inflator.avail == [] && r.msg == Incomplete && Times(th, RowBytes(tw, bpp)) > |s|
      ensures r.Ok? ==> RowsSoFar(s, pal, bpp, tw, th, y + 1, offset + tw, e')
    {
      ghost var rb := RowBytes(tw, bpp);
      ghost var before := tileBuffer[..4 * offset];
      ghost var avail := inflator.avail;
      RowFits(y, th, tw);
      e' := e;
      var row, shift := DecodePaletteRow(e, offset, bpp, tw);
      if row.Err? {
        RowShort(s, rb, th, y, e, avail);
        r := Err(row.msg);
        return;
      }
      RowDone(s, pal, bpp, tw, th, y, offset, e, avail, before, tileBuffer[..4 * (offset + tw)]);
      r, e' := NextRowByte(s, bpp, rb, th, y, shift, e);
    }

    /** The end of a pass of the row loop of `_decodePaletteTile`: the
        first packed byte of the next row, read unless row `y` was the last. */
    method NextRowByte(ghost s: seq<byte>, bpp: nat, ghost rb: nat, th: nat, y: nat, shift: int, e: byte)
      returns (r: Result<()>, e': byte)
      requires 1 <= rb && y < th && Times(y + 1, rb) <= |s| && shift < 8 - bpp
      requires inflator.avail == s[Times(y, rb) + 1..][rb - 1..]
      modifies inflator
      ensures inflator.history == old(inflator.history)
      ensures r.Err? ==> inflator.avail == [] && r.msg == Incomplete && Times(th, rb) > |s|
      ensures r.Ok? ==> RowsAhead(s, rb, th, y + 1, e', inflator.avail)
    {
      TimesNext(y, rb);
      e' := e;
      if shift < 8 - bpp && y < th - 1 {
        RowsNext(s, rb, th, y, e, inflator.avail);
        var b := InflateByte();
        if b.Err? {
          r := Err(b.msg);
          return;
        }
        e' := b.value;
      } else {
        RowsLast(s, rb, th, y, e, inflator.avail);
      }
      r := Ok(());
    }

    /** The row loop of `_decodePaletteTile`, once the palette is read:
        `th` rows of `RowBytes` packed bytes each. */
    method DecodePaletteRows(bpp: nat, tw: nat, th: nat) returns (r: Result<()>)
      requires Valid() && (bpp == 1 || bpp == 2 || bpp == 4) && 1 <= tw <= 64 && 1 <= th <= 64
      modifies inflator, tileBuffer
      ensures inflator.history == old(inflator.history)
      ensures var rb := RowBytes(tw, bpp);
              var s := old(inflator.avail);
              var need := Times(th, rb);
              (r.Ok? <==> need <= |s|) &&
              (r.Err? ==> inflator.avail == [] && r.msg == Incomplete) &&
              (r.Ok? ==>
                 inflator.avail == s[need..] && Times(th, 4 * tw) <= tileBuffer.Length &&
                 tileBuffer[..Times(th, 4 * tw)] == PaletteRows(s, pixelBuffer[..], bpp, tw, rb, th))
    {
      ghost var s := inflator.avail;
      ghost var rb := RowBytes(tw, bpp);
      TimesMono(1, th, rb);
      var encoded := InflateByte();
      if encoded.Err? {
        return Err(encoded.msg);
      }
      RowsFirst(s, rb, th, encoded.value, inflator.avail);
      r := PaletteRowsLoop(s, pixelBuffer[..], bpp, tw, th, encoded.value);
    }

    /** The row loop of `_decodePaletteTile`, the first packed byte read. */
    method PaletteRowsLoop(ghost s: seq<byte>, ghost pal: seq<byte>, bpp: nat, tw: nat, th: nat, e0: byte)
      returns (r: Result<()>)
      requires Valid() && (bpp == 1 || bpp == 2 || bpp == 4) && 1 <= tw <= 64 && 1 <= th <= 64
      requires pal == pixelBuffer[..] && RowsAhead(s, RowBytes(tw, bpp), th, 0, e0, inflator.avail)
      modifies inflator, tileBuffer
      ensures inflator.history == old(inflator.history)
      ensures r.Err? ==> inflator.avail == [] && r.msg == Incomplete && Times(th, RowBytes(tw, bpp)) > |s|
      ensures r.Ok? ==>
                Times(th, RowBytes(tw, bpp)) <= |s| && inflator.avail == s[Times(th, RowBytes(tw, bpp))..] &&
                Times(th, 4 * tw) <= tileBuffer.Length &&
                tileBuffer[..Times(th, 4 * tw)] == PaletteRows(s, pal, bpp, tw, RowBytes(tw, bpp), th)
    {
      ghost var rb := RowBytes(tw, bpp);
      TileFits(tw, th);
      var offset := 0;
      var e := e0;
      var y := 0;
      while y < th
        invariant y <= th && inflator.history == old(inflator.history)
        invariant RowsSoFar(s, pal, bpp, tw, th, y, offset, e)
      {
        var row;
        row, e := PaletteRowStep(s, pal, bpp, tw, th, y, offset, e);
        if row.Err? {
          return Err(row.msg);
        }
        offset := offset + tw;
        y := y + 1;
      }
      r := Ok(());
    }

    /** `_decodePaletteTile`: a palette of `ps` pixels, then packed rows. */
    method DecodePaletteTile(ps: nat, tw: nat, th: nat) returns (r: Result<()>)
      requires Valid() && 2 <= ps <= 16 && 1 <= tw <= 64 && 1 <= th <= 64
      modifies inflator, pixelBuffer, tileBuffer
      ensures inflator.history == old(inflator.history)
      ensures var z := PaletteTile(old(Cur()), ps, tw, th);
              Cur() == z.m && (r.Ok? <==> z.v.Ok?) && (r.Err? ==> r.msg == z.v.msg) &&
              (z.v.Ok? ==> tileBuffer[..|z.v.value|] == z.v.value)
    {
      var p := InflatePixels(ps);
      if p.Err? {
        return Err(p.msg);
      }
      var bitsPerPixel := Bpp(ps);
      r := DecodePaletteRows(bitsPerPixel, tw, th);
    }

    /** One run of an RLE palette tile from pixel `offset` on, with both
        checks of the source. */
    method DecodeRlePaletteRun(offset: nat, ps: nat, size: nat) returns (r: Result<nat>)
      requires Valid() && ps <= 127 && offset < size <= 4096
      modifies inflator, tileBuffer
      ensures inflator.history == old(inflator.history)
      ensures var h := RunHeader(old(Cur()));
              Cur() == h.m &&
              (r.Ok? <==> h.v.Ok? && h.v.value.0 <= ps && offset + h.v.value.1 <= size) &&
              (r.Err? ==> r.msg == (if h.v.Err? then h.v.msg else if h.v.value.0 > ps then TooBigIndex else TooBigLength)) &&
              (r.Ok? ==>
                 r.value == offset + h.v.value.1 &&
                 tileBuffer[..4 * r.value] == old(tileBuffer[..4 * offset]) + Repeat(Colour(h.m.pb, h.v.value.0), h.v.value.1))
    {
      var h := ReadRunHeader();
      if h.Err? {
        return Err(h.msg);
      }
      var idx, len := h.value.0, h.value.1;
      if idx > ps {
        return Err(TooBigIndex);
      }
      if offset + len > size {
        return Err(TooBigLength);
      }
      var c := pixelBuffer[4 * idx..4 * idx + 4];
      var i := PaintRun(offset, len, c, size);
      r := Ok(i);
    }

    /** The loop of `_decodeRLEPaletteTile`, once the palette is read. */
    method DecodeRlePaletteRuns(ps: nat, size: nat) returns (r: Result<()>)
      requires Valid() && 2 <= ps <= 127 && 1 <= size <= 4096
      modifies inflator, tileBuffer
      ensures inflator.history == old(inflator.history)
      ensures var z := RlePaletteRuns(old(Cur()), ps, size, []);
              Cur() == z.m && (r.Ok? <==> z.v.Ok?) && (r.Err? ==> r.msg == z.v.msg) &&
              (z.v.Ok? ==> tileBuffer[..|z.v.value|] == z.v.value)
    {
      ghost var goal := RlePaletteRuns(Cur(), ps, size, []);
      var offset: nat := 0;
      while offset < size
        invariant offset <= size && inflator.history == old(inflator.history)
        invariant RlePaletteRuns(Cur(), ps, size - offset, tileBuffer[..4 * offset]) == goal
        decreases size - offset
      {
        var n := RlePaletteStep(goal, ps, size, offset);
        if n.Err? {
          return Err(n.msg);
        }
        offset := n.value;
      }
      r := Ok(());
    }

    /** One run of an RLE palette tile, from pixel `offset` on. */
    method RlePaletteStep(ghost goal: Z<seq<byte>>, ps: nat, size: nat, offset: nat) returns (r: Result<nat>)
      requires Valid() && 2 <= ps <= 127 && offset < size <= 4096
      requires RlePaletteRuns(Cur(), ps, size - offset, tileBuffer[..4 * offset]) == goal
      modifies inflator, tileBuffer
      ensures inflator.history == old(inflator.history)
      ensures r.Err? ==> Cur() == goal.m && goal.v.Err? && r.msg == goal.v.msg
      ensures r.Ok? ==>
                offset < r.value <= size &&
                RlePaletteRuns(Cur(), ps, size - r.value, tileBuffer[..4 * r.value]) == goal
    {
      ghost var m := Cur();
      ghost var acc := tileBuffer[..4 * offset];
      r := DecodeRlePaletteRun(offset, ps, size);
      RlePaletteStepped(m, ps, size, offset, acc, goal, Cur(), r, tileBuffer[..]);
    }

    /** `_decodeRLEPaletteTile`: a palette of `ps` pixels, then runs of
        palette entries. */
    method DecodeRlePaletteTile(ps: nat, size: nat) returns (r: Result<()>)
      requires Valid() && 2 <= ps <= 127 && 1 <= size <= 4096
      modifies inflator, pixelBuffer, tileBuffer
      ensures inflator.history == old(inflator.history)
      ensures var z := RlePaletteTile(old(Cur()), ps, size);
              Cur() == z.m && (r.Ok? <==> z.v.Ok?) && (r.Err? ==> r.msg == z.v.msg) &&
              (z.v.Ok? ==> tileBuffer[..|z.v.value|] == z.v.value)
    {
      var p := InflatePixels(ps);
      if p.Err? {
        return Err(p.msg);
      }
      r := DecodeRlePaletteRuns(ps, size);
    }

    /** One tile of `decodeRect`: the subencoding byte, the tile it
        announces, and the display call that draws it. */
    method DecodeTile(tx: int, ty: int, tw: nat, th: nat, display: Display) returns (r: Result<()>)
      requires Valid() && 1 <= tw <= 64 && 1 <= th <= 64
      modifies inflator, pixelBuffer, tileBuffer, display
      ensures inflator.history == old(inflator.history)
      ensures var t := Tile(old(Cur()), tx, ty, tw, th);
              Cur() == t.m && display.log == old(display.log) + t.calls && r == t.v
    {
      var s := InflateByte();
      if s.Err? {
        return Err(s.msg);
      }
      r := DecodeSubTile(s.value as nat, tx, ty, tw, th, display);
    }

    /** The dispatch of `decodeRect` on subencoding `subencoding`. */
    method DecodeSubTile(subencoding: nat, tx: int, ty: int, tw: nat, th: nat, display: Display)
      returns (r: Result<()>)
      requires Valid() && 1 <= tw <= 64 && 1 <= th <= 64 && subencoding <= 255
      modifies inflator, pixelBuffer, tileBuffer, display
      ensures inflator.history == old(inflator.history)
      ensures var t := SubTile(old(Cur()), subencoding, tx, ty, tw, th);
              Cur() == t.m && display.log == old(display.log) + t.calls && r == t.v
    {
      if subencoding <= 1 {
        r := DecodePlainTile(subencoding, tx, ty, tw, th, display);
      } else {
        r := DecodeIndexedTile(subencoding, tx, ty, tw, th, display);
      }
    }

    /** Subencodings 0 (raw) and 1 (solid): pixels straight from the stream. */
    method DecodePlainTile(subencoding: nat, tx: int, ty: int, tw: nat, th: nat, display: Display)
      returns (r: Result<()>)
      requires Valid() && 1 <= tw <= 64 && 1 <= th <= 64 && subencoding <= 1
      modifies inflator, pixelBuffer, display
      ensures inflator.history == old(inflator.history)
      ensures var t := PlainTile(old(Cur()), subencoding, tx, ty, tw, th);
              Cur() == t.m && display.log == old(display.log) + t.calls && r == t.v
    {
      var tileSize := TileArea(tw, th);
      if subencoding == 0 {
        var p := InflatePixels(tileSize);
        if p.Err? {
          return Err(p.msg);
        }
        display.BlitImage(tx, ty, tw, th, pixelBuffer[..4 * tileSize]);
      } else {
        var p := InflatePixels(1);
        if p.Err? {
          return Err(p.msg);
        }
        display.FillRect(tx, ty, tw, th, pixelBuffer[..3]);
      }
      r := Ok(());
    }

    /** The other subencodings: a palette, runs, runs over a palette, or
        none that the decoder knows. */
    method DecodeIndexedTile(subencoding: nat, tx: int, ty: int, tw: nat, th: nat, display: Display)
      returns (r: Result<()>)
      requires Valid() && 1 <= tw <= 64 && 1 <= th <= 64 && 2 <= subencoding <= 255
      modifies inflator, pixelBuffer, tileBuffer, display
      ensures inflator.history == old(inflator.history)
      ensures var t := IndexedTile(old(Cur()), subencoding, tx, ty, tw, th);
              Cur() == t.m && display.log == old(display.log) + t.calls && r == t.v
    {
      IndexedTileCases(Cur(), subencoding, tx, ty, tw, th);
      if subencoding <= 16 {
        r := BlitPaletteTile(subencoding, tx, ty, tw, th, display);
      } else if subencoding == 128 {
        r := BlitRleTile(tx, ty, tw, th, display);
      } else if 130 <= subencoding {
        r := BlitRlePaletteTile(subencoding - 128, tx, ty, tw, th, display);
      } else {
        r := Err(UnknownSubencoding);
      }
    }

    /** Subencodings 2 to 16: a palette tile, drawn as one image. */
    method BlitPaletteTile(ps: nat, tx: int, ty: int, tw: nat, th: nat, display: Display) returns (r: Result<()>)
      requires Valid() && 1 <= tw <= 64 && 1 <= th <= 64 && 2 <= ps <= 16
      modifies inflator, pixelBuffer, tileBuffer, display
      ensures inflator.history == old(inflator.history)
      ensures var d := Blit(PaletteTile(old(Cur()), ps, tw, th), tx, ty, tw, th);
              Cur() == d.m && display.log == old(display.log) + d.calls && r == d.v
    {
      var tileSize := TileArea(tw, th);
      var p := DecodePaletteTile(ps, tw, th);
      if p.Err? {
        return Err(p.msg);
      }
      TileBytes(tw, th);
      display.BlitImage(tx, ty, tw, th, tileBuffer[..4 * tileSize]);
      r := Ok(());
    }

    /** Subencoding 128: a tile of plain runs, drawn as one image. */
    method BlitRleTile(tx: int, ty: int, tw: nat, th: nat, display: Display) returns (r: Result<()>)
      requires Valid() && 1 <= tw <= 64 && 1 <= th <= 64
      modifies inflator, pixelBuffer, tileBuffer, display
      ensures inflator.history == old(inflator.history)
      ensures var d := Blit(RleTile(old(Cur()), TileArea(tw, th)), tx, ty, tw, th);
              Cur() == d.m && display.log == old(display.log) + d.calls && r == d.v
    {
      var tileSize := TileArea(tw, th);
      var p := DecodeRleTile(tileSize);
      if p.Err? {
        return Err(p.msg);
      }
      display.BlitImage(tx, ty, tw, th, tileBuffer[..4 * tileSize]);
      r := Ok(());
    }

    /** Subencodings 130 to 255: runs over a palette of `ps` colours,
        drawn as one image. */
    method BlitRlePaletteTile(ps: nat, tx: int, ty: int, tw: nat, th: nat, display: Display) returns (r: Result<()>)
      requires Valid() && 1 <= tw <= 64 && 1 <= th <= 64 && 2 <= ps <= 127
      modifies inflator, pixelBuffer, tileBuffer, display
      ensures inflator.history == old(inflator.history)
      ensures var d := Blit(RlePaletteTile(old(Cur()), ps, TileArea(tw, th)), tx, ty, tw, th);
              Cur() == d.m && display.log == old(display.log) + d.calls && r == d.v
    {
      var tileSize := TileArea(tw, th);
      var p := DecodeRlePaletteTile(ps, tileSize);
      if p.Err? {
        return Err(p.msg);
      }
      display.BlitImage(tx, ty, tw, th, tileBuffer[..4 * tileSize]);
      r := Ok(());
    }

    /** The inner tile loop of `decodeRect`: the tiles of the row at `ty`,
        `th` high, from column `x` across `w` columns. */
    method DecodeTileRow(x: int, w: nat, ty: int, th: nat, display: Display) returns (r: Result<()>)
      requires Valid() && 1 <= th <= 64
      modifies inflator, pixelBuffer, tileBuffer, display
      ensures inflator.history == old(inflator.history)
      ensures var d := TileRow(old(Cur()), x, w, x, ty, th);
              Cur() == d.m && display.log == old(display.log) + d.calls && r == d.v
    {
      ghost var goal := TileRow(Cur(), x, w, x, ty, th);
      ghost var done: seq<Call> := [];
      var tx := x;
      while tx < x + w
        invariant inflator.history == old(inflator.history)
        invariant TilesSoFar(goal, done, old(display.log), x, w, tx, ty, th, display)
        decreases x + w - tx
      {
        var tile, calls := TileRowStep(goal, done, old(display.log), x, w, tx, ty, th, display);
        if tile.Err? {
          return tile;
        }
        done := done + calls;
        tx := tx + TileSide;
      }
      AppendNil(done);
      r := Ok(());
    }

    /** The tiles of the row before `tx` have drawn `done` after `l0`, and
        the rest of the row draws the rest of `goal`. */
    ghost predicate TilesSoFar(goal: Drawn, done: seq<Call>, l0: seq<Call>,
                               x: int, w: nat, tx: int, ty: int, th: nat, display: Display)
      requires Valid() && 1 <= th <= 64
      reads this, inflator, pixelBuffer, display
    {
      display.log == l0 + done &&
      var d := TileRow(Cur(), x, w, tx, ty, th);
      goal.m == d.m && goal.v == d.v && goal.calls == done + d.calls
    }

    /** The tile at `tx` of a row of tiles. */
    method TileRowStep(ghost goal: Drawn, ghost done: seq<Call>, ghost l0: seq<Call>,
                       x: int, w: nat, tx: int, ty: int, th: nat, display: Display)
      returns (r: Result<()>, ghost calls: seq<Call>)
      requires Valid() && 1 <= th <= 64 && tx < x + w
      requires TilesSoFar(goal, done, l0, x, w, tx, ty, th, display)
      modifies inflator, pixelBuffer, tileBuffer, display
      ensures inflator.history == old(inflator.history)
      ensures r.Err? ==> Cur() == goal.m && display.log == l0 + goal.calls && r == goal.v
      ensures r.Ok? ==> TilesSoFar(goal, done + calls, l0, x, w, tx + TileSide, ty, th, display)
    {
      var tw := Min(TileSide, x + w - tx);
      ghost var t := Tile(Cur(), tx, ty, tw, th);
      calls := t.calls;
      ghost var rest := TileRow(t.m, x, w, tx + TileSide, ty, th);
      r := DecodeTile(tx, ty, tw, th, display);
      if r.Err? {
        AppendNil(t.calls);
        AppendAssoc(l0, done, t.calls);
        return;
      }
      AppendAssoc(done, t.calls, rest.calls);
      AppendAssoc(l0, done, t.calls);
    }

    /** The outer tile loop of `decodeRect`: the rows of tiles from `y`
        down `h` rows, each `x` to `x + w`. */
    method DecodeTileRows(x: int, y: int, w: nat, h: nat, display: Display) returns (r: Result<()>)
      requires Valid()
      modifies inflator, pixelBuffer, tileBuffer, display
      ensures inflator.history == old(inflator.history)
      ensures var d := TileRows(old(Cur()), x, y, w, h, y);
              Cur() == d.m && display.log == old(display.log) + d.calls && r == d.v
    {
      ghost var goal := TileRows(Cur(), x, y, w, h, y);
      ghost var done: seq<Call> := [];
      var ty := y;
      while ty < y + h
        invariant inflator.history == old(inflator.history)
        invariant RowsOfTilesSoFar(goal, done, old(display.log), x, y, w, h, ty, display)
        decreases y + h - ty
      {
        ghost var row := TileRow(Cur(), x, w, x, ty, Min(TileSide, y + h - ty));
        var tiles := TileRowsStep(goal, done, old(display.log), x, y, w, h, ty, display);
        if tiles.Err? {
          return tiles;
        }
        done := done + row.calls;
        ty := ty + TileSide;
      }
      AppendNil(done);
      r := Ok(());
    }

    /** The rows of tiles above `ty` have drawn `done` after `l0`, and the
        rest of the rectangle draws the rest of `goal`. */
    ghost predicate RowsOfTilesSoFar(goal: Drawn, done: seq<Call>, l0: seq<Call>,
                                     x: int, y: int, w: nat, h: nat, ty: int, display: Display)
      requires Valid()
      reads this, inflator, pixelBuffer, display
    {
      display.log == l0 + done &&
      var d := TileRows(Cur(), x, y, w, h, ty);
      goal.m == d.m && goal.v == d.v && goal.calls == done + d.calls
    }

    /** The row of tiles at `ty` of a rectangle. */
    method TileRowsStep(ghost goal: Drawn, ghost done: seq<Call>, ghost l0: seq<Call>,
                        x: int, y: int, w: nat, h: nat, ty: int, display: Display) returns (r: Result<()>)
      requires Valid() && ty < y + h
      requires RowsOfTilesSoFar(goal, done, l0, x, y, w, h, ty, display)
      modifies inflator, pixelBuffer, tileBuffer, display
      ensures inflator.history == old(inflator.history)
      ensures r.Err? ==> Cur() == goal.m && display.log == l0 + goal.calls && r == goal.v
      ensures r.Ok? ==>
                var row := TileRow(old(Cur()), x, w, x, ty, Min(TileSide, y + h - ty));
                RowsOfTilesSoFar(goal, done + row.calls, l0, x, y, w, h, ty + TileSide, display)
    {
      var th := Min(TileSide, y + h - ty);
      ghost var row := TileRow(Cur(), x, w, x, ty, th);
      ghost var rest := TileRows(row.m, x, y, w, h, ty + TileSide);
      r := DecodeTileRow(x, w, ty, th, display);
      AppendAssoc(l0, done, row.calls);
      if r.Err? {
        AppendNil(row.calls);
        return;
      }
      AppendAssoc(done, row.calls, rest.calls);
    }

    /** `decodeRect`: the length field unless it was read before, the
        whole block, then the tiles of the rectangle from what the block
        inflates to. The length is cleared once every tile is drawn. */
    method DecodeRect(x: int, y: int, width: nat, height: nat, sock: Socket, display: Display)
      returns (r: Result<bool>)
      requires Valid() && sock.Valid()
      modifies this, inflator, pixelBuffer, tileBuffer, sock, display
      ensures Valid() && sock.Valid() && sock.data == old(sock.data)
      ensures sock.sendQueue == old(sock.sendQueue) && sock.sent == old(sock.sent)
      ensures Leaves(Step(old(State()), old(sock.Unread()), x, y, width, height, inflator.codec),
                     sock, display, old(sock.index), old(display.log), r)
    {
      if length == 0 {
        var short := sock.Lacks(4);
        if short {
          return Ok(false);
        }
        ghost var u0 := sock.Unread();
        length := sock.Shift32();
        assert sock.Unread() == u0[4..];
      }
      r := DecodeBlock(x, y, width, height, sock, display);
    }

    /** The block of `decodeRect` once its length is known. */
    method DecodeBlock(x: int, y: int, width: nat, height: nat, sock: Socket, display: Display)
      returns (r: Result<bool>)
      requires Valid() && sock.Valid()
      modifies this, inflator, pixelBuffer, tileBuffer, sock, display
      ensures Valid() && sock.Valid() && sock.data == old(sock.data)
      ensures sock.sendQueue == old(sock.sendQueue) && sock.sent == old(sock.sent)
      ensures Leaves(Body(old(State()), old(sock.Unread()), x, y, width, height, inflator.codec),
                     sock, display, old(sock.index), old(display.log), r)
    {
      var short := sock.Lacks(length);
      if short {
        return Ok(false);
      }
      ghost var st := State();
      ghost var u := sock.Unread();
      var data := sock.ShiftBytes(length);
      inflator.SetInput(Some(data));
      ghost var d := TileRows(Cur(), x, y, width, height, y);
      BodyFed(st, u, x, y, width, height, inflator.codec, d);
      var tiles := DecodeTileRows(x, y, width, height, display);
      if tiles.Err? {
        return Err(tiles.msg);
      }
      length := 0;
      r := Ok(true);
    }
  }
}
