/** AES-ECB and AES-EAX as the client builds them from WebCrypto's AES-CBC
    and AES-CTR: the CMAC subkeys and padding of RFC 4493, the OMAC tweaks
    and tag of the EAX mode of Bellare, Rogaway and Wagner, and the checks
    `decrypt` makes before it releases a plaintext.

    The one thing left opaque is the AES block encryption under a key,
    `Cipher`. WebCrypto's AES-CBC (with its PKCS#7 padding block) and
    AES-CTR (a 128-bit big-endian block counter) are written out on top of
    it, since their definitions are standard. Bytes are `bv8` here, so
    that the source's shifts, ors and xors on `Uint8Array` elements are
    the machine operations, reduced modulo 256 as a `Uint8Array` store
    reduces them. */
module AES {
  import opened Bytes

  type Block = s: seq<bv8> | |s| == 16 witness [0, 0, 0, 0, 0, 0, 0, 0, 0, 0, 0, 0, 0, 0, 0, 0]

  /** AES encryption of one block under one key. */
  type Cipher = Block -> Block

  /** The key schedule: what `crypto.subtle.importKey("raw", key, ...)`
      makes of a raw key. */
  type KeyImport = seq<byte> -> Cipher

  const ZeroBlock: Block := [0, 0, 0, 0, 0, 0, 0, 0, 0, 0, 0, 0, 0, 0, 0, 0]

  /* ---------- Conversions between the two byte types ---------- */

  function Octet(b: byte): bv8 { b as bv8 }
  function ByteOf(o: bv8): byte { o as byte }

  function ToOctets(s: seq<byte>): (r: seq<bv8>)
    ensures |r| == |s|
  {
    seq(|s|, i requires 0 <= i < |s| => Octet(s[i]))
  }

  function FromOctets(s: seq<bv8>): (r: seq<byte>)
    ensures |r| == |s|
  {
    seq(|s|, i requires 0 <= i < |s| => ByteOf(s[i]))
  }

  lemma IntOctet(x: int)
    requires 0 <= x < 256
    ensures (x as bv8) as int == x
  {
    assert x % 256 == x;
  }

  lemma OctetRoundTrip(b: byte)
    ensures ByteOf(Octet(b)) == b
  {
    IntOctet(b as int);
    assert Octet(b) == (b as int) as bv8;
  }

  lemma ByteRoundTrip(o: bv8)
    ensures Octet(ByteOf(o)) == o
  {
  }

  lemma {:induction false} OctetsRoundTrip(s: seq<byte>)
    ensures FromOctets(ToOctets(s)) == s
  {
    var t := ToOctets(s);
    forall i | 0 <= i < |s| ensures FromOctets(t)[i] == s[i] {
      assert t[i] == Octet(s[i]);
      OctetRoundTrip(s[i]);
    }
  }

  lemma {:induction false} BytesRoundTrip(s: seq<bv8>)
    ensures ToOctets(FromOctets(s)) == s
  {
    var t := FromOctets(s);
    forall i | 0 <= i < |s| ensures ToOctets(t)[i] == s[i] {
      assert t[i] == ByteOf(s[i]);
      ByteRoundTrip(s[i]);
    }
  }

  lemma {:induction false} FromOctetsAppend(a: seq<bv8>, b: seq<bv8>)
    ensures FromOctets(a + b) == FromOctets(a) + FromOctets(b)
  {
    assert forall i :: 0 <= i < |a + b| ==> FromOctets(a + b)[i] == (FromOctets(a) + FromOctets(b))[i];
  }

  /* ---------- Byte-wise xor ---------- */

  function XorAt(a: seq<bv8>, b: seq<bv8>, i: nat): bv8
    requires i < |a| && i < |b|
  {
    a[i] ^ b[i]
  }

  function Xor(a: seq<bv8>, b: seq<bv8>): (r: seq<bv8>)
    requires |a| == |b|
    ensures |r| == |a|
  {
    seq(|a|, i requires 0 <= i < |a| => XorAt(a, b, i))
  }

  /* ---------- WebCrypto's AES-CBC ---------- */

  /** CBC chaining over whole blocks: each block is xored with the
      previous output (the IV for the first) and encrypted. */
  function CbcBlocks(e: Cipher, iv: Block, data: seq<bv8>): (r: seq<bv8>)
    requires |data| % 16 == 0
    ensures |r| == |data|
    decreases |data|
  {
    if data == [] then []
    else
      var c := e(Xor(iv, data[..16]));
      c + CbcBlocks(e, c, data[16..])
  }

  /** The last chaining value after `data`: the CBC-MAC state. */
  function Chain(e: Cipher, x: Block, data: seq<bv8>): Block
    requires |data| % 16 == 0
    decreases |data|
  {
    if data == [] then x else Chain(e, e(Xor(x, data[..16])), data[16..])
  }

  /** The PKCS#7 block WebCrypto appends to block-aligned input. */
  const PaddingBlock: Block := [16, 16, 16, 16, 16, 16, 16, 16, 16, 16, 16, 16, 16, 16, 16, 16]

  /** `crypto.subtle.encrypt({name: "AES-CBC", iv}, key, data)` on
      block-aligned data: one output block per input block, then the
      encryption of the padding block. */
  function Cbc(e: Cipher, iv: Block, data: seq<bv8>): (r: seq<bv8>)
    requires |data| % 16 == 0
    ensures |r| == |data| + 16
  {
    CbcBlocks(e, iv, data + PaddingBlock)
  }

  lemma {:induction false} CbcBlocksAppend(e: Cipher, iv: Block, d1: seq<bv8>, d2: seq<bv8>)
    requires |d1| % 16 == 0 && |d2| % 16 == 0
    ensures CbcBlocks(e, iv, d1 + d2) == CbcBlocks(e, iv, d1) + CbcBlocks(e, Chain(e, iv, d1), d2)
    decreases |d1|
  {
    if d1 == [] {
      assert d1 + d2 == d2;
    } else {
      assert (d1 + d2)[..16] == d1[..16];
      assert (d1 + d2)[16..] == d1[16..] + d2;
      CbcBlocksAppend(e, e(Xor(iv, d1[..16])), d1[16..], d2);
    }
  }

  /** The last output block of CBC is the CBC-MAC state. */
  lemma {:induction false} CbcBlocksLast(e: Cipher, iv: Block, data: seq<bv8>)
    requires |data| % 16 == 0 && |data| >= 16
    ensures CbcBlocks(e, iv, data)[|data| - 16..] == Chain(e, iv, data)
    decreases |data|
  {
    var c := e(Xor(iv, data[..16]));
    if |data| > 16 {
      CbcBlocksLast(e, c, data[16..]);
      assert CbcBlocks(e, iv, data)[|data| - 16..] == CbcBlocks(e, c, data[16..])[|data| - 32..];
    } else {
      assert data[16..] == [];
    }
  }

  lemma {:induction false} ChainAppend(e: Cipher, x: Block, d1: seq<bv8>, d2: seq<bv8>)
    requires |d1| % 16 == 0 && |d2| % 16 == 0
    ensures Chain(e, x, d1 + d2) == Chain(e, Chain(e, x, d1), d2)
    decreases |d1|
  {
    if d1 == [] {
      assert d1 + d2 == d2;
    } else {
      assert (d1 + d2)[..16] == d1[..16];
      assert (d1 + d2)[16..] == d1[16..] + d2;
      ChainAppend(e, e(Xor(x, d1[..16])), d1[16..], d2);
    }
  }

  /** The block at `|data| - 16` of WebCrypto's CBC output, the one
      `_computeCMAC` keeps, is the CBC-MAC of `data`. */
  lemma {:induction false} CbcMacBlock(e: Cipher, data: seq<bv8>)
    requires |data| % 16 == 0 && |data| >= 16
    ensures Cbc(e, ZeroBlock, data)[|data| - 16..|data|] == Chain(e, ZeroBlock, data)
  {
    CbcBlocksAppend(e, ZeroBlock, data, PaddingBlock);
    CbcBlocksLast(e, ZeroBlock, data);
    assert Cbc(e, ZeroBlock, data)[..|data|] == CbcBlocks(e, ZeroBlock, data);
  }

  /** `_encryptBlock`: one block through CBC with a zero IV is the block
      encryption itself. */
  lemma {:induction false} CbcOneBlock(e: Cipher, b: Block)
    ensures Cbc(e, ZeroBlock, b)[..16] == e(b)
  {
    assert Xor(ZeroBlock, b) == b;
    assert (b + PaddingBlock)[..16] == b;
  }

  /* ---------- WebCrypto's AES-CTR ---------- */

  /** The counter block for block `j` of the data: the initial counter
      plus `j`, as a 128-bit big-endian integer (`length: 128`). */
  function CounterBlock(ctr: Block, j: nat): Block
  {
    ToOctets(ToBE((BE(FromOctets(ctr)) + j) % Pow256(16), 16))
  }

  function CtrAt(e: Cipher, ctr: Block, data: seq<bv8>, i: nat): bv8
    requires i < |data|
  {
    data[i] ^ e(CounterBlock(ctr, i / 16))[i % 16]
  }

  /** `crypto.subtle.encrypt({name: "AES-CTR", counter, length: 128})`,
      and `decrypt` too, which is the same operation: the data xored with
      the encrypted counter blocks. */
  function Ctr(e: Cipher, ctr: Block, data: seq<bv8>): (r: seq<bv8>)
    ensures |r| == |data|
  {
    seq(|data|, i requires 0 <= i < |data| => CtrAt(e, ctr, data, i))
  }

  lemma {:induction false} CtrInverse(e: Cipher, ctr: Block, data: seq<bv8>)
    ensures Ctr(e, ctr, Ctr(e, ctr, data)) == data
  {
    forall i | 0 <= i < |data| ensures Ctr(e, ctr, Ctr(e, ctr, data))[i] == data[i] {
      var k := e(CounterBlock(ctr, i / 16))[i % 16];
      assert Ctr(e, ctr, data)[i] == data[i] ^ k;
      assert (data[i] ^ k) ^ k == data[i];
    }
  }

  /* ---------- CMAC (RFC 4493) ---------- */

  function Msb(b: bv8): bool { b >> 7 == 1 }

  function DoubleAt(l: Block, i: nat): bv8
    requires i < 16
  {
    if i < 15 then (l[i] << 1) | (l[i + 1] >> 7)
    else (l[15] << 1) ^ (if Msb(l[0]) then 0x87 else 0)
  }

  /** Section 2.3 of RFC 4493: the block shifted left by one bit, with
      const_Rb = 0x87 xored into the last byte when the bit shifted out
      was set. */
  function Double(l: Block): Block
  {
    seq(16, i requires 0 <= i < 16 => DoubleAt(l, i))
  }

  /** The 10* padding of section 2.4 of RFC 4493 for an incomplete block. */
  function Padding(x: seq<bv8>): (r: Block)
    requires |x| < 16
    ensures r[..|x|] == x && r[|x|] == 0x80
    ensures forall i :: |x| < i < 16 ==> r[i] == 0
  {
    x + [0x80] + seq(15 - |x|, _ => 0)
  }

  /** The number of blocks of a message in section 2.4 of RFC 4493: at
      least one, even for the empty message. */
  function BlockCount(len: nat): (n: nat)
    ensures n >= 1 && 16 * (n - 1) <= len
    ensures len > 0 ==> len <= 16 * n
  {
    if len == 0 then 1 else CeilDiv(len, 16)
  }

  /** M_last of section 2.4 of RFC 4493: the last block xored with K1
      when it is complete, else padded and xored with K2. */
  function LastBlock(m: seq<bv8>, k1: Block, k2: Block): Block
  {
    var n := BlockCount(|m|);
    if |m| > 0 && |m| % 16 == 0 then Xor(m[16 * (n - 1)..], k1)
    else Xor(Padding(m[16 * (n - 1)..]), k2)
  }

  /** AES-CMAC of RFC 4493 (section 2.4, steps 1 to 6) under the block
      encryption `e`: the subkeys come from the encryption of the zero
      block, the message blocks but the last are chained through CBC-MAC,
      and the tag is the encryption of the last state xored with M_last. */
  function Cmac(e: Cipher, m: seq<bv8>): Block
  {
    var l := e(ZeroBlock);
    var n := BlockCount(|m|);
    var x := Chain(e, ZeroBlock, m[..16 * (n - 1)]);
    e(Xor(x, LastBlock(m, Double(l), Double(Double(l)))))
  }

  /** The block that tweaks OMAC in EAX: 15 zero bytes and then `t`. */
  function Prefix(t: bv8): (p: Block)
    ensures p[..15] == ZeroBlock[..15] && p[15] == t
  {
    ZeroBlock[..15] + [t]
  }

  /** OMAC^t of the EAX mode: CMAC of the tweak block followed by `m`. */
  function Omac(e: Cipher, t: bv8, m: seq<bv8>): Block
  {
    Cmac(e, Prefix(t) + m)
  }

  /* ---------- EAX ---------- */

  /** The EAX tag: OMAC^0(N) xor OMAC^1(H) xor OMAC^2(C). */
  function Tag(e: Cipher, nonce: seq<bv8>, ad: seq<bv8>, c: seq<bv8>): Block
  {
    Xor(Xor(Omac(e, 0, nonce), Omac(e, 1, ad)), Omac(e, 2, c))
  }

  /** EAX encryption: the message under CTR from OMAC^0(N), followed by
      the tag. */
  function Seal(e: Cipher, nonce: seq<bv8>, ad: seq<bv8>, m: seq<bv8>): (r: seq<bv8>)
    ensures |r| == |m| + 16
  {
    var c := Ctr(e, Omac(e, 0, nonce), m);
    c + Tag(e, nonce, ad, c)
  }

  /** EAX decryption: nothing unless the input holds a tag and the tag is
      the one its ciphertext, nonce and associated data call for. */
  function Open(e: Cipher, nonce: seq<bv8>, ad: seq<bv8>, data: seq<bv8>): (r: Option<seq<bv8>>)
    ensures r.Some? ==> |data| >= 16 && data[|data| - 16..] == Tag(e, nonce, ad, data[..|data| - 16])
    ensures r.Some? ==> |r.value| == |data| - 16
  {
    if |data| < 16 then None
    else
      var c := data[..|data| - 16];
      if data[|data| - 16..] == Tag(e, nonce, ad, c) then Some(Ctr(e, Omac(e, 0, nonce), c)) else None
  }

  /** Decryption undoes encryption under the same key, nonce and
      associated data. */
  lemma {:induction false} OpenSeal(e: Cipher, nonce: seq<bv8>, ad: seq<bv8>, m: seq<bv8>)
    ensures Open(e, nonce, ad, Seal(e, nonce, ad, m)) == Some(m)
  {
    var n := Omac(e, 0, nonce);
    var c := Ctr(e, n, m);
    var s := Seal(e, nonce, ad, m);
    assert s[..|s| - 16] == c && s[|s| - 16..] == Tag(e, nonce, ad, c);
    CtrInverse(e, n, m);
  }

  /** A sealed message whose tag is changed, and its ciphertext kept, is
      refused. */
  lemma {:induction false} OpenRejectsTag(e: Cipher, nonce: seq<bv8>, ad: seq<bv8>, m: seq<bv8>, t: seq<bv8>)
    requires |t| == 16
    requires t != Seal(e, nonce, ad, m)[|m|..]
    ensures Open(e, nonce, ad, Seal(e, nonce, ad, m)[..|m|] + t) == None
  {
    var s := Seal(e, nonce, ad, m);
    var d := s[..|m|] + t;
    assert d[..|d| - 16] == s[..|m|] && d[|d| - 16..] == t;
    assert s[|m|..] == Tag(e, nonce, ad, s[..|m|]);
  }

  /** A message is accepted only with the tag its ciphertext, nonce and
      associated data determine, and then it is the CTR decryption of
      the ciphertext: the same key, nonce and data give back exactly the
      message that was sealed. */
  lemma {:induction false} OpenOnlySealed(e: Cipher, nonce: seq<bv8>, ad: seq<bv8>, data: seq<bv8>)
    requires Open(e, nonce, ad, data).Some?
    ensures Seal(e, nonce, ad, Open(e, nonce, ad, data).value) == data
  {
    var c := data[..|data| - 16];
    var n := Omac(e, 0, nonce);
    var m := Ctr(e, n, c);
    CtrInverse(e, n, c);
    assert data == c + data[|data| - 16..];
  }

  /* ---------- The subkeys as the source computes them ---------- */

  /** `lut[v]` of `_initCMAC`, the table [0x00, 0x87, 0x0e, 0x89]: the
      reduction by x^128 + x^7 + x^2 + x + 1 of the two bits `v` shifted
      out of the top. */
  function Lut(v: bv8): bv8
  {
    if v == 0 then 0x00 else if v == 1 then 0x87 else if v == 2 then 0x0e else 0x89
  }

  /* The byte operations of `_initCMAC`, `v` being the top two bits of
     L[0]. */
  function Top(b: bv8): (v: bv8)
    ensures v < 4
  {
    b >> 6
  }

  function Shift1(cur: bv8, next: bv8): bv8 { (next >> 7) | (cur << 1) }
  function Shift2(cur: bv8, next: bv8): bv8 { (next >> 6) | (cur << 2) }
  function Fold14(x: bv8, v: bv8): bv8 { x ^ (v >> 1) }
  function Last1(x: bv8, v: bv8): bv8 { (x << 1) ^ Lut(v >> 1) }
  function Last2(x: bv8, v: bv8): bv8 { (x << 2) ^ Lut(v) }

  /** Byte `i` of k2 as `_initCMAC` computes it from L in one pass: L
      shifted left by two bits, with `lut[v]` xored into the last byte and
      `v >>> 1` into byte 14. */
  function K2At(l: Block, i: nat): bv8
    requires i < 16
  {
    if i < 14 then Shift2(l[i], l[i + 1])
    else if i == 14 then Fold14(Shift2(l[14], l[15]), Top(l[0]))
    else Last2(l[15], Top(l[0]))
  }

  /** The two-bit shift with the lookup table is the doubling of the
      doubling: k2 = 2 * k1 in GF(2^128). */
  lemma {:induction false} K2IsDoubleDouble(l: Block)
    ensures forall i :: 0 <= i < 16 ==> K2At(l, i) == Double(Double(l))[i]
  {
    var k1 := Double(l);
    forall i | 0 <= i < 16 ensures K2At(l, i) == Double(k1)[i] {
      assert Double(k1)[i] == DoubleAt(k1, i);
      assert k1[i] == DoubleAt(l, i);
      if i < 15 {
        assert k1[i + 1] == DoubleAt(l, i + 1);
      }
      assert k1[0] == DoubleAt(l, 0);
    }
  }

  /** The bytes `_initCMAC` leaves in k1 and k2 are the subkeys K1 and K2
      of section 2.3 of RFC 4493. */
  lemma {:induction false} SubkeyPass(l: Block, a1: seq<bv8>, a2: seq<bv8>)
    requires |a1| == 16 && |a2| == 16
    requires forall j :: 0 <= j < 15 ==> a1[j] == Shift1(l[j], l[j + 1])
    requires forall j :: 0 <= j < 14 ==> a2[j] == Shift2(l[j], l[j + 1])
    requires a2[14] == Fold14(Shift2(l[14], l[15]), Top(l[0]))
    requires a2[15] == Last2(l[15], Top(l[0])) && a1[15] == Last1(l[15], Top(l[0]))
    ensures a1 == Double(l) && a2 == Double(Double(l))
  {
    SubkeyK1(l, a1);
    SubkeyK2(l, a2);
  }

  lemma {:induction false} SubkeyK1(l: Block, a1: seq<bv8>)
    requires |a1| == 16
    requires forall j :: 0 <= j < 15 ==> a1[j] == Shift1(l[j], l[j + 1])
    requires a1[15] == Last1(l[15], Top(l[0]))
    ensures a1 == Double(l)
  {
    LastByte1(l[15], l[0]);
    forall j | 0 <= j < 16 ensures a1[j] == DoubleAt(l, j) {
    }
  }

  lemma {:induction false} SubkeyK2(l: Block, a2: seq<bv8>)
    requires |a2| == 16
    requires forall j :: 0 <= j < 14 ==> a2[j] == Shift2(l[j], l[j + 1])
    requires a2[14] == Fold14(Shift2(l[14], l[15]), Top(l[0]))
    requires a2[15] == Last2(l[15], Top(l[0]))
    ensures a2 == Double(Double(l))
  {
    forall j | 0 <= j < 16 ensures a2[j] == K2At(l, j) {
    }
    K2IsDoubleDouble(l);
    forall j | 0 <= j < 16 ensures a2[j] == Double(Double(l))[j] {
    }
  }

  /** The state the shifting loop of `_initCMAC` leaves, finished by its
      three last assignments, is the pair of subkeys. */
  lemma {:induction false} SubkeyTail(l: Block, s1: seq<bv8>, s2: seq<bv8>)
    requires |s1| == 16 && |s2| == 16 && s1[15] == l[15]
    requires forall j :: 0 <= j < 15 ==> s1[j] == Shift1(l[j], l[j + 1]) && s2[j] == Shift2(l[j], l[j + 1])
    ensures s1[15 := Last1(l[15], Top(l[0]))] == Double(l)
    ensures s2[14 := Fold14(s2[14], Top(l[0]))][15 := Last2(l[15], Top(l[0]))] == Double(Double(l))
  {
    SubkeyPass(l, s1[15 := Last1(l[15], Top(l[0]))], s2[14 := Fold14(s2[14], Top(l[0]))][15 := Last2(l[15], Top(l[0]))]);
  }

  /** The last byte of K1: `lut[v >> 1]` is const_Rb exactly when the top
      bit of L was set. */
  lemma LastByte1(x: bv8, top: bv8)
    ensures Last1(x, Top(top)) == (x << 1) ^ (if Msb(top) then 0x87 else 0)
  {
    if Msb(top) {
      assert Top(top) >> 1 == 1;
    } else {
      assert Top(top) >> 1 == 0;
    }
  }

  /* ---------- The cipher classes ---------- */

  /** ECB: every 16-byte block encrypted on its own. */
  function Ecb(e: Cipher, x: seq<bv8>): (r: seq<bv8>)
    requires |x| % 16 == 0
    ensures |r| == |x|
    decreases |x|
  {
    if x == [] then [] else e(x[..16]) + Ecb(e, x[16..])
  }

  /** ECB over one more block appends that block's encryption. */
  lemma {:induction false} EcbSnoc(e: Cipher, x: seq<bv8>, i: nat)
    requires 16 * i + 16 <= |x|
    ensures Ecb(e, x[..16 * i + 16]) == Ecb(e, x[..16 * i]) + e(x[16 * i..16 * i + 16])
    decreases i
  {
    if i == 0 {
      assert x[..16][..16] == x[..16] && x[..16][16..] == [] && x[..0] == [];
    } else {
      var t := x[16..];
      EcbSnoc(e, t, i - 1);
      assert x[..16 * i + 16][..16] == x[..16 * i][..16] == x[..16];
      assert x[..16 * i + 16][16..] == t[..16 * (i - 1) + 16];
      assert x[..16 * i][16..] == t[..16 * (i - 1)];
      assert t[16 * (i - 1)..16 * (i - 1) + 16] == x[16 * i..16 * i + 16];
    }
  }

  /** One pass of the loop of `encrypt`: block `i` replaced by its
      encryption extends the encrypted prefix by one block. */
  lemma {:induction false} EcbStep(e: Cipher, p: seq<bv8>, i: nat, x: seq<bv8>)
    requires 16 * i + 16 <= |p| && x == Ecb(e, p[..16 * i]) + p[16 * i..]
    ensures x[..16 * i] + e(x[16 * i..16 * i + 16]) + x[16 * i + 16..] == Ecb(e, p[..16 * i + 16]) + p[16 * i + 16..]
  {
    EcbSnoc(e, p, i);
    var a := Ecb(e, p[..16 * i]);
    var rest := p[16 * i..];
    assert |a| == 16 * i;
    assert x[..16 * i] == a;
    assert x[16 * i..] == rest;
    assert x[16 * i..16 * i + 16] == rest[..16] == p[16 * i..16 * i + 16];
    assert x[16 * i + 16..] == rest[16..] == p[16 * i + 16..];
  }

  class AESECBCipher {
    var key: Option<Cipher>

    constructor()
      ensures key == None
    {
      key := None;
    }

    /** `_importKey`: the raw key becomes an AES key. */
    method ImportKey(raw: seq<byte>, aes: KeyImport)
      modifies this
      ensures key == Some(aes(raw))
    {
      key := Some(aes(raw));
    }

    /** `encrypt`: nothing for a length that is not a whole number of
        blocks or before a key is set; otherwise each block is replaced by
        its encryption, in place in a copy of the input (a sequence
        variable here). */
    method Encrypt(plaintext: seq<bv8>) returns (r: Option<seq<bv8>>)
      ensures r == if |plaintext| % 16 != 0 || key.None? then None else Some(Ecb(key.value, plaintext))
    {
      if |plaintext| % 16 != 0 || key.None? {
        return None;
      }
      var e := key.value;
      var x := plaintext;
      var n := |plaintext| / 16;
      var i := 0;
      while i < n
        invariant 0 <= i <= n && |x| == 16 * n
        invariant x == Ecb(e, plaintext[..16 * i]) + plaintext[16 * i..]
      {
        var block := x[16 * i..16 * i + 16];
        var y := Cbc(e, ZeroBlock, block)[..16];
        CbcOneBlock(e, block);
        EcbStep(e, plaintext, i, x);
        x := x[..16 * i] + y + x[16 * i + 16..];
        i := i + 1;
      }
      assert plaintext[..16 * n] == plaintext && plaintext[16 * n..] == [];
      assert x == Ecb(e, plaintext) + [] == Ecb(e, plaintext);
      r := Some(x);
    }
  }

  /** The input to CBC-MAC in section 2.4 of RFC 4493: the blocks before
      the last, then M_last. */
  function CmacInput(m: seq<bv8>, k1: Block, k2: Block): (r: seq<bv8>)
    ensures |r| == 16 * BlockCount(|m|)
  {
    m[..16 * (BlockCount(|m|) - 1)] + LastBlock(m, k1, k2)
  }

  /** CMAC is the CBC-MAC of that input. */
  lemma {:induction false} CmacIsChain(e: Cipher, m: seq<bv8>)
    ensures Cmac(e, m) == Chain(e, ZeroBlock, CmacInput(m, Double(e(ZeroBlock)), Double(Double(e(ZeroBlock)))))
  {
    var l := e(ZeroBlock);
    var front := m[..16 * (BlockCount(|m|) - 1)];
    var last := LastBlock(m, Double(l), Double(Double(l)));
    ChainAppend(e, ZeroBlock, front, last);
    var x := Chain(e, ZeroBlock, front);
    assert last[..16] == last && last[16..] == [];
    assert Chain(e, x, last) == Chain(e, e(Xor(x, last)), []);
  }

  /** The CBC output block `_computeCMAC` keeps, over the CMAC input,
      is the CMAC. */
  lemma {:induction false} CmacFromBuffer(e: Cipher, msg: seq<bv8>, buf: seq<bv8>)
    requires buf == CmacInput(msg, Double(e(ZeroBlock)), Double(Double(e(ZeroBlock))))
    ensures Cbc(e, ZeroBlock, buf)[|buf| - 16..|buf|] == Cmac(e, msg)
  {
    CbcMacBlock(e, buf);
    CmacIsChain(e, msg);
  }

  /** The index a JavaScript `slice` resolves a possibly negative
      argument to: counted from the end when negative, and clamped to
      the bounds. */
  function RelativeIndex(len: nat, k: int): (r: nat)
    ensures r <= len
    ensures k >= 0 ==> r == Min(k, len)
    ensures k < 0 ==> r == Max(len + k, 0)
  {
    if k < 0 then (if len + k < 0 then 0 else len + k) else if k < len then k else len
  }

  /** `n` zero bytes: a fresh `Uint8Array(n)`. */
  function ZeroBytes(n: nat): (r: seq<bv8>)
    ensures |r| == n && forall i :: 0 <= i < n ==> r[i] == 0
  {
    if n == 0 then [] else [0] + ZeroBytes(n - 1)
  }

  /** `x` with the block at `off` xored with `k`. */
  function XorSpan(x: seq<bv8>, k: Block, off: nat): (r: seq<bv8>)
    requires off + 16 <= |x|
    ensures |r| == |x|
  {
    x[..off] + Xor(x[off..off + 16], k) + x[off + 16..]
  }

  /** The loop `x[off + i] ^= k[i]` over one block. */
  method XorInto(x: seq<bv8>, k: Block, off: nat) returns (y: seq<bv8>)
    requires off + 16 <= |x|
    ensures y == XorSpan(x, k, off)
  {
    y := x;
    var i := 0;
    while i < 16
      invariant 0 <= i <= 16 && |y| == |x|
      invariant y[..off] == x[..off] && y[off + 16..] == x[off + 16..]
      invariant forall j :: 0 <= j < i ==> y[off + j] == x[off + j] ^ k[j]
      invariant forall j :: off + i <= j < off + 16 ==> y[j] == x[j]
    {
      y := y[off + i := y[off + i] ^ k[i]];
      i := i + 1;
    }
    assert y[off..off + 16] == Xor(x[off..off + 16], k);
    assert y == y[..off] + y[off..off + 16] + y[off + 16..];
  }

  /** A message of whole blocks: the buffer is the message with K1 xored
      into its last block, which is the CMAC input. */
  lemma {:induction false} CmacBufferComplete(prefix: seq<bv8>, data: seq<bv8>, k1: Block, k2: Block, n: nat, size: nat)
    requires |prefix| == 16 && n == |data| / 16 && |data| - n * 16 == 0 && size == (n + 1) * 16
    ensures XorSpan(prefix + data + ZeroBytes(size - 16 - |data|), k1, n * 16) == CmacInput(prefix + data, k1, k2)
  {
    var msg := prefix + data;
    assert msg + ZeroBytes(size - 16 - |data|) == msg;
    var base := |data|;
    assert 16 * (BlockCount(|msg|) - 1) == base by {
      assert BlockCount(|msg|) == |data| / 16 + 1;
    }
    assert LastBlock(msg, k1, k2) == Xor(msg[base..], k1);
    assert msg[base + 16..] == [];
  }

  /** The message, then 0x80 and zeros to the block boundary: the last
      block is the 10* padding of the message's tail. */
  lemma {:induction false} PaddedTail(msg: seq<bv8>, z: seq<bv8>, base: nat)
    requires base <= |msg| < base + 16 && |msg| + |z| == base + 16
    requires forall i :: 0 <= i < |z| ==> z[i] == 0
    ensures (msg + z)[|msg| := 0x80][base..base + 16] == Padding(msg[base..])
  {
    var buf := (msg + z)[|msg| := 0x80];
    var rr := |msg| - base;
    var p := Padding(msg[base..]);
    forall i | 0 <= i < 16 ensures buf[base + i] == p[i] {
      if i < rr {
        assert buf[base + i] == msg[base + i] == msg[base..][i];
        assert p[i] == p[..rr][i];
      } else if i > rr {
        assert buf[base + i] == z[base + i - |msg|];
      }
    }
  }

  /** A message ending in a partial block: the buffer is the message,
      0x80, zeros up to the next block boundary, with K2 xored into that
      last block, which is the CMAC input. */
  lemma {:induction false} CmacBufferPartial(prefix: seq<bv8>, data: seq<bv8>, k1: Block, k2: Block, n: nat, r: nat, size: nat)
    requires |prefix| == 16 && n == |data| / 16 && r == |data| - n * 16 && r != 0 && size == (n + 2) * 16
    ensures XorSpan((prefix + data + ZeroBytes(size - 16 - |data|))[(n + 1) * 16 + r := 0x80], k2, (n + 1) * 16)
            == CmacInput(prefix + data, k1, k2)
  {
    var msg := prefix + data;
    var z := ZeroBytes(size - 16 - |data|);
    var base := (n + 1) * 16;
    var buf := (msg + z)[base + r := 0x80];
    assert |msg| == base + r && |buf| == base + 16;
    assert 16 * (BlockCount(|msg|) - 1) == base by {
      assert BlockCount(|msg|) == n + 2;
    }
    var p := Padding(msg[base..]);
    assert LastBlock(msg, k1, k2) == Xor(p, k2);
    PaddedTail(msg, z, base);
    assert buf[..base] == msg[..base];
    assert buf[base + 16..] == [];
  }

  class AESEAXCipher {
    var rawKey: Option<seq<byte>>
    var ctrKey: Option<Cipher>
    var cbcKey: Option<Cipher>
    var k1: Block
    var k2: Block

    /** Both WebCrypto keys come from the same raw key, and once there is
        a key the CMAC subkeys are those of RFC 4493 for it. */
    ghost predicate Valid()
      reads this
    {
      ctrKey == cbcKey &&
      (cbcKey.Some? ==> k1 == Double(cbcKey.value(ZeroBlock)) && k2 == Double(k1))
    }

    constructor()
      ensures Valid() && rawKey == None && ctrKey == None && cbcKey == None
    {
      rawKey := None;
      ctrKey := None;
      cbcKey := None;
      k1 := ZeroBlock;
      k2 := ZeroBlock;
    }

    /** `_importKey`: the raw key is kept, becomes the CTR and the CBC key,
        and the CMAC subkeys are derived. */
    method ImportKey(key: seq<byte>, aes: KeyImport)
      modifies this
      ensures Valid()
      ensures rawKey == Some(key) && ctrKey == Some(aes(key)) && cbcKey == Some(aes(key))
    {
      rawKey := Some(key);
      ctrKey := Some(aes(key));
      cbcKey := Some(aes(key));
      InitCmac();
    }

    /** `_encryptBlock`: one block through AES-CBC with a zero IV, first
        16 bytes of the output. */
    method EncryptBlock(block: Block) returns (r: Block)
      requires cbcKey.Some?
      ensures r == cbcKey.value(block)
    {
      CbcOneBlock(cbcKey.value, block);
      r := Cbc(cbcKey.value, ZeroBlock, block)[..16];
    }

    /** `_initCMAC`: k1 and k2 from L = AES(0^128) in one pass of shifts,
        which are the doubling and the doubling of the doubling of L. */
    method InitCmac()
      requires cbcKey.Some?
      modifies this
      ensures rawKey == old(rawKey) && ctrKey == old(ctrKey) && cbcKey == old(cbcKey)
      ensures k1 == Double(cbcKey.value(ZeroBlock)) && k2 == Double(k1)
    {
      var l := EncryptBlock(ZeroBlock);
      k1, k2 := SubkeyShifts(l);
    }

    /** `_computeCMAC`: nothing for a prefix that is not one block;
        otherwise the CBC output block that ends 16 bytes before the end,
        over the buffer below: the AES-CMAC of the prefix followed by the
        data. */
    method ComputeCmac(data: seq<bv8>, prefix: seq<bv8>) returns (mac: seq<bv8>)
      requires Valid() && cbcKey.Some?
      ensures mac == if |prefix| != 16 then [] else Cmac(cbcKey.value, prefix + data)
    {
      if |prefix| != 16 {
        return [];
      }
      var cbc := CmacBuffer(data, prefix);
      var encrypted := Cbc(cbcKey.value, ZeroBlock, cbc);
      mac := encrypted[|encrypted| - 32..|encrypted| - 16];
      CmacFromBuffer(cbcKey.value, prefix + data, cbc);
    }

    /** The buffer `_computeCMAC` encrypts: the prefix and the data laid
        out in zeroed blocks, the last block xored with k1 when the data
        ends on a block boundary, else 0x80 after the data and the last
        block xored with k2. It is the input CMAC chains. */
    method CmacBuffer(data: seq<bv8>, prefix: seq<bv8>) returns (cbc: seq<bv8>)
      requires |prefix| == 16
      ensures cbc == CmacInput(prefix + data, k1, k2)
    {
      var n := |data| / 16;
      var m := CeilDiv(|data|, 16);
      var r := |data| - n * 16;
      cbc := prefix + data + ZeroBytes((m + 1) * 16 - 16 - |data|);
      if r == 0 {
        CmacBufferComplete(prefix, data, k1, k2, n, (m + 1) * 16);
        cbc := XorInto(cbc, k1, n * 16);
      } else {
        CmacBufferPartial(prefix, data, k1, k2, n, r, (m + 1) * 16);
        cbc := cbc[(n + 1) * 16 + r := 0x80];
        cbc := XorInto(cbc, k2, (n + 1) * 16);
      }
    }

    /** `encrypt`: the message under CTR from OMAC^0 of the nonce, then
        the tag OMAC^2(ciphertext) xor OMAC^0(nonce) xor OMAC^1(data). */
    method Encrypt(ad: seq<bv8>, nonce: seq<bv8>, message: seq<bv8>) returns (res: seq<bv8>)
      requires Valid() && ctrKey.Some?
      ensures res == Seal(ctrKey.value, nonce, ad, message)
    {
      var nCmac := ComputeCmac(nonce, Prefix(0));
      var encrypted := Ctr(ctrKey.value, nCmac, message);
      var adCmac := ComputeCmac(ad, Prefix(1));
      var mac := ComputeCmac(encrypted, Prefix(2));
      var t := MixTag(mac, nCmac, adCmac);
      res := encrypted + t;
    }

    /** `decrypt`: the input split into ciphertext and tag at 16 bytes
        from the end (JavaScript `slice`), the tag recomputed, then
        nothing unless the two have the same length and agree byte for
        byte, else the CTR decryption of the ciphertext. */
    method Decrypt(ad: seq<bv8>, nonce: seq<bv8>, data: seq<bv8>) returns (r: Option<seq<bv8>>)
      requires Valid() && ctrKey.Some?
      ensures r == Open(ctrKey.value, nonce, ad, data)
    {
      var cut := RelativeIndex(|data|, |data| - 16);
      var encrypted := data[..cut];
      var mac := data[cut..];
      var nCmac := ComputeCmac(nonce, Prefix(0));
      var adCmac := ComputeCmac(ad, Prefix(1));
      var computed := ComputeCmac(encrypted, Prefix(2));
      var t := MixTag(computed, nCmac, adCmac);
      var same := SameBytes(t, mac);
      if !same {
        return None;
      }
      r := Some(Ctr(ctrKey.value, nCmac, encrypted));
    }
  }

  /** The shifting pass of `_initCMAC` over L: both subkeys at once, k2
      two bits at a time with `lut` folding in the bits shifted out. The
      two `Uint8Array`s are sequence variables here. */
  method SubkeyShifts(l: Block) returns (k1: Block, k2: Block)
    ensures k1 == Double(l) && k2 == Double(k1)
  {
    var a1: seq<bv8> := l;
    var a2: seq<bv8> := ZeroBlock;
    var v := Top(a1[0]);
    var i := 0;
    while i < 15
      invariant 0 <= i <= 15 && |a1| == 16 && |a2| == 16
      invariant forall j :: 0 <= j < i ==> a1[j] == Shift1(l[j], l[j + 1]) && a2[j] == Shift2(l[j], l[j + 1])
      invariant a1[i..] == l[i..]
    {
      a2 := a2[i := Shift2(a1[i], a1[i + 1])];
      a1 := a1[i := Shift1(a1[i], a1[i + 1])];
      i := i + 1;
    }
    SubkeyTail(l, a1, a2);
    a2 := a2[14 := Fold14(a2[14], v)];
    a2 := a2[15 := Last2(a1[15], v)];
    a1 := a1[15 := Last1(a1[15], v)];
    k1 := a1;
    k2 := a2;
  }

  /** The check of `decrypt` that the computed tag and the received one
      have the same length and agree byte for byte. */
  method SameBytes(a: seq<bv8>, b: seq<bv8>) returns (same: bool)
    ensures same <==> a == b
  {
    if |a| != |b| {
      return false;
    }
    var i := 0;
    while i < |b|
      invariant 0 <= i <= |b|
      invariant a[..i] == b[..i]
    {
      if a[i] != b[i] {
        return false;
      }
      assert a[..i + 1] == a[..i] + [a[i]];
      assert b[..i + 1] == b[..i] + [b[i]];
      i := i + 1;
    }
    assert a == a[..i] && b == b[..i];
    return true;
  }

  /** The loop `mac[i] ^= nCMAC[i] ^ adCMAC[i]` over the 16 tag bytes. */
  method MixTag(mac: Block, nCmac: Block, adCmac: Block) returns (t: Block)
    ensures t == Xor(Xor(nCmac, adCmac), mac)
  {
    var a := new bv8[16](i requires 0 <= i < 16 => mac[i]);
    var i := 0;
    while i < 16
      invariant 0 <= i <= 16
      invariant forall j :: 0 <= j < i ==> a[j] == mac[j] ^ (nCmac[j] ^ adCmac[j])
      invariant forall j :: i <= j < 16 ==> a[j] == mac[j]
    {
      a[i] := a[i] ^ (nCmac[i] ^ adCmac[i]);
      i := i + 1;
    }
    t := a[..];
  }
}
