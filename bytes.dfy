/** Bytes, big-endian and little-endian integers, and the Option/Result
    wrappers shared by every module of the model.

    A byte is an integer from 0 to 255, the element type of a `Uint8Array`.
    The source's bit operations on bytes are written in arithmetic form:
    `b >> k` is `b / 2^k`, `b & (2^k - 1)` is `b % 2^k`, and a test of the
    bit of value `m` is `(b / m) % 2 == 1`. */
module Bytes {

  newtype byte = x: int | 0 <= x < 256

  datatype Option<+T> = None | Some(value: T)

  /** `Err` stands for an exception thrown by the source. */
  datatype Result<+T> = Ok(value: T) | Err(msg: string)

  function Min(a: int, b: int): int { if a <= b then a else b }
  function Max(a: int, b: int): int { if a <= b then b else a }

  /** Math.ceil(n / d) for a positive divisor. */
  function CeilDiv(n: nat, d: nat): (r: nat)
    requires d > 0
    ensures r * d >= n && (r == 0 || (r - 1) * d < n)
  {
    (n + d - 1) / d
  }

  function Pow256(n: nat): (r: nat)
    ensures r > 0
  {
    if n == 0 then 1 else 256 * Pow256(n - 1)
  }

  function Pow2(n: nat): (r: nat)
    ensures r > 0
  {
    if n == 0 then 1 else 2 * Pow2(n - 1)
  }

  /** Value of a big-endian byte sequence. */
  function BE(s: seq<byte>): (r: nat)
    ensures r < Pow256(|s|)
  {
    if s == [] then 0 else BE(s[..|s| - 1]) * 256 + s[|s| - 1] as int
  }

  /** Value of a little-endian byte sequence (byte 0 least significant). */
  function LE(s: seq<byte>): (r: nat)
    ensures r < Pow256(|s|)
  {
    if s == [] then 0 else s[0] as int + 256 * LE(s[1..])
  }

  /** The `len`-byte big-endian encoding of `x` modulo 256^len. */
  function ToBE(x: nat, len: nat): (r: seq<byte>)
    ensures |r| == len
  {
    if len == 0 then []
    else ToBE(x / 256, len - 1) + [(x % 256) as byte]
  }

  lemma {:induction false} BEOfToBE(x: nat, len: nat)
    ensures BE(ToBE(x, len)) == x % Pow256(len)
  {
    if len > 0 {
      var s := ToBE(x, len);
      assert s[..len - 1] == ToBE(x / 256, len - 1);
      BEOfToBE(x / 256, len - 1);
      assert BE(s) == (x / 256) % Pow256(len - 1) * 256 + x % 256;
      DivModNested(x, Pow256(len - 1));
    }
  }

  lemma {:induction false} DivModNested(x: nat, p: nat)
    requires p > 0
    ensures (x / 256) % p * 256 + x % 256 == x % (256 * p)
  {
    var q := x / 256;
    var r := x % 256;
    var a := q / p;
    var b := q % p;
    assert x == 256 * q + r;
    assert q == a * p + b;
    assert 256 * q == 256 * (a * p) + 256 * b;
    assert 256 * (a * p) == (256 * p) * a;
    assert x == (256 * p) * a + (256 * b + r);
    assert 256 * b + r < 256 * p by {
      assert b <= p - 1;
      assert 256 * b <= 256 * (p - 1);
    }
    ModUnique(x, 256 * p, a, 256 * b + r);
  }

  lemma {:induction false} ModUnique(x: int, d: int, q: int, r: int)
    requires d > 0 && x == d * q + r && 0 <= r < d
    ensures x % d == r && x / d == q
  {
    var q', r' := x / d, x % d;
    assert d * q + r == d * q' + r';
    assert d * (q - q') == r' - r;
    if q > q' {
      MulAtLeast(d, q - q');
    } else if q < q' {
      MulAtLeast(d, q' - q);
    }
  }

  lemma {:induction false} MulAtLeast(d: int, k: int)
    requires d > 0 && k >= 1
    ensures d * k >= d
  {
  }

  /** Taking one block of `d` off `n` takes one off the count of blocks. */
  lemma {:induction false} CeilDivStep(n: nat, d: nat)
    requires 0 < d && 0 < n
    ensures n <= d ==> CeilDiv(n, d) == 1
    ensures n > d ==> CeilDiv(n - d, d) == CeilDiv(n, d) - 1
  {
    var q := CeilDiv(n, d);
    if n <= d {
      if q >= 2 {
        MulLe(1, q - 1, d);
      }
    } else {
      var p := CeilDiv(n - d, d);
      MulPred(p, d);
      MulPred(p + 1, d);
      if q > p + 1 {
        MulLe(p + 1, q - 1, d);
      } else if q <= p {
        MulLe(q, p, d);
      }
    }
  }

  lemma {:induction false} MulLe(a: nat, b: nat, c: nat)
    requires a <= b
    ensures a * c <= b * c
  {
  }

  lemma {:induction false} MulPred(a: nat, b: nat)
    requires a > 0
    ensures a * b == (a - 1) * b + b
  {
  }

  lemma {:induction false} ToBEOfBE(s: seq<byte>)
    ensures ToBE(BE(s), |s|) == s
  {
    if s != [] {
      var init := s[..|s| - 1];
      var last := s[|s| - 1];
      var v := BE(s);
      assert v == BE(init) * 256 + last as int;
      assert v / 256 == BE(init) && v % 256 == last as int;
      ToBEOfBE(init);
      assert (v % 256) as byte == last;
      assert s == init + [last];
    }
  }

  /** A 16-bit big-endian field, as `rQshift16` reads it. */
  function U16(hi: byte, lo: byte): (r: nat)
    ensures r == BE([hi, lo]) && r < 65536
  {
    assert [hi, lo][..1] == [hi];
    assert [hi][..0] == [];
    hi as int * 256 + lo as int
  }

  /** A 32-bit big-endian field, as `rQshift32` reads it. */
  function U32(s: seq<byte>): (r: nat)
    requires |s| == 4
    ensures r == BE(s) && r < 0x1_0000_0000
  {
    assert s[..3][..2] == s[..2];
    assert s[..2][..1] == s[..1];
    assert s[..1][..0] == [];
    assert BE(s[..1]) == s[0] as int;
    assert BE(s[..2]) == s[0] as int * 256 + s[1] as int;
    assert BE(s[..3]) == BE(s[..2]) * 256 + s[2] as int;
    ((s[0] as int * 256 + s[1] as int) * 256 + s[2] as int) * 256 + s[3] as int
  }

  /** `[(n & 0xff00) >>> 8, n & 0xff]`: the low 16 bits of `n`, big-endian. */
  function Be16(n: nat): (r: seq<byte>)
    ensures |r| == 2 && U16(r[0], r[1]) == n % 65536
  {
    DivModNested(n, 256);
    [((n / 256) % 256) as byte, (n % 256) as byte]
  }

  function Zeros(n: nat): (r: seq<byte>)
    ensures |r| == n && forall i :: 0 <= i < n ==> r[i] == 0
  {
    seq(n, _ => 0)
  }

  /** The bytes `getRandomValues` writes into a fresh array of `n` bytes,
      given the random source as a function of the index. */
  function RandomBytes(random: nat -> byte, n: nat): (r: seq<byte>)
    ensures |r| == n
  {
    seq(n, i requires 0 <= i < n => random(i))
  }

  /** Reading index `i` of a `Uint8Array` that may be too short: JavaScript
      yields `undefined`, which a store into a `Uint8Array` turns into 0. */
  function ByteAtOrZero(s: seq<byte>, i: int): byte
  {
    if 0 <= i < |s| then s[i] else 0
  }

  /* ---------- RGBA pixel buffers ---------- */

  /** Writes the RGBA pixel `c` at pixel `i` of `a`. */
  method PutPixel(a: array<byte>, i: nat, c: seq<byte>)
    requires |c| == 4 && 4 * i + 4 <= a.Length
    modifies a
    ensures a[..] == old(a[..])[..4 * i] + c + old(a[..])[4 * i + 4..]
  {
    a[4 * i] := c[0];
    a[4 * i + 1] := c[1];
    a[4 * i + 2] := c[2];
    a[4 * i + 3] := c[3];
    assert forall k :: 0 <= k < a.Length ==> a[..][k] == (old(a[..])[..4 * i] + c + old(a[..])[4 * i + 4..])[k];
  }

  /** Writing pixel `p` of `want` over a buffer that already holds the
      pixels before it extends the agreement by one pixel. */
  lemma {:induction false} PixelWritten(want: seq<byte>, before: seq<byte>, after: seq<byte>, p: nat, q: seq<byte>)
    requires 4 * p + 4 <= |want| && 4 * p + 4 <= |before|
    requires before[..4 * p] == want[..4 * p] && q == want[4 * p..4 * p + 4]
    requires after == before[..4 * p] + q + before[4 * p + 4..]
    ensures after[..4 * (p + 1)] == want[..4 * (p + 1)]
  {
    assert after[..4 * (p + 1)] == before[..4 * p] + q;
    assert want[..4 * (p + 1)] == want[..4 * p] + want[4 * p..4 * p + 4];
  }
}
