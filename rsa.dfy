/** RSAES-PKCS1-v1_5 (section 7.2 of RFC 8017) as `RSACipher` performs it:
    key fields filled from a JWK export or from raw modulus/exponent bytes,
    encryption padding with nonzero random bytes, and decryption unpadding.

    `modPow` and the big-integer conversions of the big-integer helper
    module are not part of this model: `modPow` is a parameter, the byte
    array to integer conversion is `BE`, and the integer to byte array
    conversion is `ToBE` (the low `len` bytes, big-endian). */
module RSA {
  import opened Bytes

  /** `modPow(base, exponent, modulus)`. */
  type ModPow = (nat, nat, nat) -> nat

  /** `Base64.decode`. */
  type Base64Decode = string -> seq<byte>

  /** The members of the JWK that WebCrypto exports for a generated key. */
  datatype Jwk = Jwk(n: string, e: string, d: string)

  /** The raw public key accepted by `importKey`. */
  datatype PublicKeyData = PublicKeyData(n: seq<byte>, e: seq<byte>)

  /** What `exportKey` returns. */
  datatype ExportedKey = ExportedKey(n: Option<seq<byte>>, e: Option<seq<byte>>, d: Option<seq<byte>>)

  /* ---------- key material ---------- */

  function UrlChar(c: char): char
  {
    if c == '-' then '+' else if c == '_' then '/' else c
  }

  /** The text `_base64urlDecode` hands to `Base64.decode`: the URL-safe
      alphabet mapped back to the standard one and '=' padding up to a
      multiple of four characters. */
  function Base64UrlToStd(data: string): (r: string)
    ensures |r| % 4 == 0 && |data| <= |r| < |data| + 4
    ensures forall i :: 0 <= i < |data| ==> r[i] == UrlChar(data[i])
    ensures forall i :: |data| <= i < |r| ==> r[i] == '='
    ensures forall i :: 0 <= i < |r| ==> r[i] != '-' && r[i] != '_'
  {
    seq(|data|, i requires 0 <= i < |data| => UrlChar(data[i]))
      + seq(CeilDiv(|data|, 4) * 4 - |data|, _ => '=')
  }

  /** `_padArray`: a `length`-byte array holding `arr` at its end. Setting a
      longer array at a negative offset throws a RangeError. */
  function PadArray(arr: seq<byte>, length: nat): (r: Result<seq<byte>>)
    ensures r.Ok? <==> |arr| <= length
    ensures r.Ok? ==> |r.value| == length && r.value[length - |arr|..] == arr
    ensures r.Ok? ==> forall i :: 0 <= i < length - |arr| ==> r.value[i] == 0
  {
    if |arr| > length then Err("offset is out of bounds") else Ok(Zeros(length - |arr|) + arr)
  }

  /** One JWK member as `_generateKey` stores it: decoded and padded. */
  function JwkMember(member: string, decode: Base64Decode, keyBytes: nat): Result<seq<byte>>
  {
    PadArray(decode(Base64UrlToStd(member)), keyBytes)
  }

  lemma {:induction false} BELeadingZero(t: seq<byte>)
    ensures BE([0] + t) == BE(t)
    decreases |t|
  {
    if t != [] {
      var s := [0] + t;
      assert s[..|s| - 1] == [0] + t[..|t| - 1];
      BELeadingZero(t[..|t| - 1]);
    }
  }

  lemma {:induction false} BEZeros(k: nat, t: seq<byte>)
    ensures BE(Zeros(k) + t) == BE(t)
  {
    if k > 0 {
      assert Zeros(k) == [0] + Zeros(k - 1);
      assert Zeros(k) + t == [0] + (Zeros(k - 1) + t);
      BELeadingZero(Zeros(k - 1) + t);
      BEZeros(k - 1, t);
    } else {
      assert Zeros(k) + t == t;
    }
  }

  /** Left zero padding does not change the integer a key array stands for. */
  lemma PadArrayValue(arr: seq<byte>, length: nat)
    requires |arr| <= length
    ensures BE(PadArray(arr, length).value) == BE(arr)
  {
    BEZeros(length - |arr|, arr);
  }

  /* ---------- padding (section 7.2.1 of RFC 8017) ---------- */

  /** `Math.floor(r * 254 / 255 + 1)` for a random byte `r`. The quotient
      is an integer only for r = 0 and r = 255 and otherwise lies at least
      1/255 away from one, so the floating-point floor is the integer one. */
  function NonZero(r: byte): (b: byte)
    ensures 1 <= b
    ensures r == 0 ==> b == 1
    ensures r == 255 ==> b == 255
  {
    (r as int * 254 / 255 + 1) as byte
  }

  /** The padding string PS: `len` random bytes mapped into 1..255. */
  function PaddingString(random: nat -> byte, len: nat): (ps: seq<byte>)
    ensures |ps| == len && forall i :: 0 <= i < len ==> ps[i] != 0
  {
    var ps := seq(len, i requires 0 <= i < len => NonZero(random(i)));
    assert forall i :: 0 <= i < len ==> ps[i] == NonZero(random(i));
    ps
  }

  /** The encoded message EM = 0x00 ‖ 0x02 ‖ PS ‖ 0x00 ‖ M. */
  function Encode(ps: seq<byte>, m: seq<byte>): seq<byte>
  {
    [0, 2] + ps + [0] + m
  }

  /** Index of the first zero byte at or after `k`, if any. */
  function ZeroFrom(s: seq<byte>, k: nat): (r: Option<nat>)
    ensures r.Some? ==> k <= r.value < |s| && s[r.value] == 0
    ensures r.Some? ==> forall j :: k <= j < r.value ==> s[j] != 0
    ensures r.None? ==> forall j :: k <= j < |s| ==> s[j] != 0
    decreases |s| - k
  {
    if k >= |s| then None else if s[k] == 0 then Some(k) else ZeroFrom(s, k + 1)
  }

  /** The unpadding `decrypt` performs on EM: a 0x00 0x02 prefix, then the
      bytes after the first zero at index 2 or later. There is no check on
      the length of PS. */
  function Unpad(em: seq<byte>): (r: Option<seq<byte>>)
    ensures r.None? <==> |em| < 2 || em[0] != 0 || em[1] != 2 || forall j :: 2 <= j < |em| ==> em[j] != 0
    ensures r.Some? ==> |r.value| + 3 <= |em| && em[|em| - |r.value|..] == r.value
    ensures r.Some? ==> em[|em| - |r.value| - 1] == 0
    ensures r.Some? ==> forall j :: 2 <= j < |em| - |r.value| - 1 ==> em[j] != 0
  {
    if |em| < 2 || em[0] != 0 || em[1] != 2 then None
    else match ZeroFrom(em, 2)
      case None => None
      case Some(i) => Some(em[i + 1..])
  }

  lemma {:induction false} ZeroFromSkips(s: seq<byte>, k: nat, z: nat)
    requires k <= z < |s| && s[z] == 0
    requires forall j :: k <= j < z ==> s[j] != 0
    ensures ZeroFrom(s, k) == Some(z)
    decreases z - k
  {
    if k < z {
      ZeroFromSkips(s, k + 1, z);
    }
  }

  /** Unpadding inverts padding whenever PS holds no zero byte. */
  lemma UnpadEncode(ps: seq<byte>, m: seq<byte>)
    requires forall i :: 0 <= i < |ps| ==> ps[i] != 0
    ensures Unpad(Encode(ps, m)) == Some(m)
  {
    var em := Encode(ps, m);
    forall j | 2 <= j < |ps| + 2
      ensures em[j] != 0
    {
      assert em[j] == ps[j - 2];
    }
    ZeroFromSkips(em, 2, |ps| + 2);
    assert em[|ps| + 3..] == m;
  }

  /** A padding string shorter than the eight bytes RFC 8017 requires is
      still accepted: with no PS at all the message comes back. */
  lemma UnpadEmptyPs(m: seq<byte>)
    ensures Unpad([0, 2, 0] + m) == Some(m)
  {
    assert [0, 2, 0] + m == Encode([], m);
    UnpadEncode([], m);
  }

  /** The block `encrypt` builds for a message that fits: keyBytes long,
      at least eight PS bytes, all nonzero, and it unpads to the message. */
  lemma EncodeBlock(keyBytes: nat, m: seq<byte>, random: nat -> byte)
    requires |m| <= keyBytes - 11
    ensures var ps := PaddingString(random, keyBytes - |m| - 3);
      |Encode(ps, m)| == keyBytes && |ps| >= 8 && Unpad(Encode(ps, m)) == Some(m)
  {
    UnpadEncode(PaddingString(random, keyBytes - |m| - 3), m);
  }

  /** The result `encrypt` computes with exponent `e` and modulus `n`. */
  function EncryptValue(keyBytes: nat, e: nat, n: nat, m: seq<byte>, random: nat -> byte, modPow: ModPow): (r: Option<seq<byte>>)
    ensures r.Some? <==> |m| <= keyBytes - 11
    ensures r.Some? ==> |r.value| == keyBytes
  {
    if |m| > keyBytes - 11 then None
    else Some(ToBE(modPow(BE(Encode(PaddingString(random, keyBytes - |m| - 3), m)), e, n), keyBytes))
  }

  /** The result `decrypt` computes with private exponent `d`. */
  function DecryptValue(keyBytes: nat, d: nat, n: nat, c: seq<byte>, modPow: ModPow): (r: Option<seq<byte>>)
    ensures |c| != keyBytes ==> r.None?
    ensures r.Some? ==> |r.value| + 3 <= keyBytes
  {
    if |c| != keyBytes then None else Unpad(ToBE(modPow(BE(c), d, n), keyBytes))
  }

  /** With `e` and `d` inverse exponents modulo `n` and a modulus whose top
      byte is nonzero, decryption returns what encryption padded. */
  lemma DecryptEncrypt(keyBytes: nat, e: nat, d: nat, n: nat, m: seq<byte>, random: nat -> byte, modPow: ModPow)
    requires keyBytes > 0 && Pow256(keyBytes - 1) <= n <= Pow256(keyBytes)
    requires forall x: nat :: modPow(x, e, n) < n
    requires forall x: nat :: x < n ==> modPow(modPow(x, e, n), d, n) == x
    requires |m| <= keyBytes - 11
    ensures DecryptValue(keyBytes, d, n, EncryptValue(keyBytes, e, n, m, random, modPow).value, modPow) == Some(m)
  {
    var ps := PaddingString(random, keyBytes - |m| - 3);
    var em := Encode(ps, m);
    EncodeBlock(keyBytes, m, random);
    BlockBelowModulus(em, n);
    var y := modPow(BE(em), e, n);
    var c := ToBE(y, keyBytes);
    assert EncryptValue(keyBytes, e, n, m, random, modPow) == Some(c);
    SmallValueBytes(y, keyBytes);
    assert modPow(BE(c), d, n) == BE(em);
    ToBEOfBE(em);
    assert DecryptValue(keyBytes, d, n, c, modPow) == Unpad(em);
  }

  /** EM starts with a zero byte, so its value is below a modulus whose top
      byte is nonzero. */
  lemma BlockBelowModulus(em: seq<byte>, n: nat)
    requires |em| > 0 && em[0] == 0 && Pow256(|em| - 1) <= n
    ensures BE(em) < n
  {
    assert em == [0] + em[1..];
    BELeadingZero(em[1..]);
  }

  lemma SmallValueBytes(y: nat, len: nat)
    requires y < Pow256(len)
    ensures BE(ToBE(y, len)) == y
  {
    BEOfToBE(y, len);
  }

  /* ---------- the cipher object ---------- */

  class RSACipher {
    var keyLength: nat
    var keyBytes: nat
    var n: Option<seq<byte>>
    var e: Option<seq<byte>>
    var d: Option<seq<byte>>
    var nBig: Option<nat>
    var eBig: Option<nat>
    var dBig: Option<nat>
    var extractable: bool

    constructor()
      ensures keyLength == 0 && keyBytes == 0 && !extractable
      ensures n.None? && e.None? && d.None? && nBig.None? && eBig.None? && dBig.None?
    {
      keyLength := 0;
      keyBytes := 0;
      n := None;
      e := None;
      d := None;
      nBig := None;
      eBig := None;
      dBig := None;
      extractable := false;
    }

    /** `_generateKey`: the sizes come from the modulus length, and n, e, d
        are the JWK members decoded and left-padded to keyBytes. A member
        longer than keyBytes throws, leaving the members set before it. */
    method GenerateKey(modulusLength: nat, extractable: bool, jwk: Jwk, decode: Base64Decode) returns (r: Result<()>)
      modifies this
      ensures keyLength == modulusLength && keyBytes == CeilDiv(modulusLength, 8)
      ensures var pn := JwkMember(jwk.n, decode, keyBytes);
        var pe := JwkMember(jwk.e, decode, keyBytes);
        var pd := JwkMember(jwk.d, decode, keyBytes);
        && (r.Ok? <==> pn.Ok? && pe.Ok? && pd.Ok?)
        && (pn.Ok? ==> n == Some(pn.value) && nBig == Some(BE(pn.value)))
        && (pn.Ok? && pe.Ok? ==> e == Some(pe.value) && eBig == Some(BE(pe.value)))
        && (r.Ok? ==> d == Some(pd.value) && dBig == Some(BE(pd.value)) && this.extractable == extractable)
    {
      keyLength := modulusLength;
      keyBytes := CeilDiv(modulusLength, 8);
      var pn := JwkMember(jwk.n, decode, keyBytes);
      if pn.Err? {
        return Err(pn.msg);
      }
      n := Some(pn.value);
      nBig := Some(BE(pn.value));
      var pe := JwkMember(jwk.e, decode, keyBytes);
      if pe.Err? {
        return Err(pe.msg);
      }
      e := Some(pe.value);
      eBig := Some(BE(pe.value));
      var pd := JwkMember(jwk.d, decode, keyBytes);
      if pd.Err? {
        return Err(pd.msg);
      }
      d := Some(pd.value);
      dBig := Some(BE(pd.value));
      this.extractable := extractable;
      r := Ok(());
    }

    /** `_importKey`: n and e must have the same length, which sets the
        key size; the private exponent stays unset. */
    method ImportRaw(key: PublicKeyData, extractable: bool) returns (r: Result<()>)
      modifies this
      ensures r.Ok? <==> |key.n| == |key.e|
      ensures r.Err? ==> r.msg == "the sizes of modulus and public exponent do not match"
      ensures r.Err? ==> unchanged(this)
      ensures r.Ok? ==> keyBytes == |key.n| && keyLength == 8 * |key.n|
      ensures r.Ok? ==> n == Some(key.n) && e == Some(key.e) && nBig == Some(BE(key.n)) && eBig == Some(BE(key.e))
      ensures r.Ok? ==> d == old(d) && dBig == old(dBig) && this.extractable == extractable
    {
      if |key.n| != |key.e| {
        return Err("the sizes of modulus and public exponent do not match");
      }
      keyBytes := |key.n|;
      keyLength := keyBytes * 8;
      n := Some(key.n);
      e := Some(key.e);
      nBig := Some(BE(key.n));
      eBig := Some(BE(key.e));
      this.extractable := extractable;
      r := Ok(());
    }

    /** `encrypt`: null for a message longer than keyBytes - 11; otherwise
        PS is filled from `random` and mapped into 1..255, EM is assembled
        in place and raised to e modulo n. */
    method Encrypt(message: seq<byte>, random: nat -> byte, modPow: ModPow) returns (r: Option<seq<byte>>)
      requires nBig.Some? && eBig.Some?
      ensures r == EncryptValue(keyBytes, eBig.value, nBig.value, message, random, modPow)
    {
      if |message| > keyBytes - 11 {
        return None;
      }
      var len := keyBytes - |message| - 3;
      var ps: seq<byte> := [];
      var i := 0;
      while i < len
        invariant 0 <= i <= len && |ps| == i
        invariant forall k :: 0 <= k < i ==> ps[k] == NonZero(random(k))
      {
        ps := ps + [NonZero(random(i))];
        i := i + 1;
      }
      assert ps == PaddingString(random, len);
      var em := Zeros(keyBytes);
      em := em[1 := 2];
      assert em[..2] == [0, 2];
      em := em[..2] + ps + em[2 + len..];
      assert em[..len + 3] == [0, 2] + ps + [0];
      em := em[..len + 3] + message;
      r := Some(ToBE(modPow(BE(em), eBig.value, nBig.value), keyBytes));
    }

    /** `decrypt`: null unless the input is keyBytes long; the block is
        raised to d modulo n and scanned for the zero byte ending PS. */
    method Decrypt(message: seq<byte>, modPow: ModPow) returns (r: Option<seq<byte>>)
      requires nBig.Some? && dBig.Some?
      ensures r == DecryptValue(keyBytes, dBig.value, nBig.value, message, modPow)
    {
      if |message| != keyBytes {
        return None;
      }
      var em := ToBE(modPow(BE(message), dBig.value, nBig.value), keyBytes);
      if |em| < 2 || em[0] != 0 || em[1] != 2 {
        return None;
      }
      var i := 2;
      while i < |em| && em[i] != 0
        invariant 2 <= i <= |em|
        invariant ZeroFrom(em, i) == ZeroFrom(em, 2)
        decreases |em| - i
      {
        i := i + 1;
      }
      if i == |em| {
        return None;
      }
      r := Some(em[i + 1..]);
    }

    /** `exportKey`: only an extractable key gives up its members. */
    method ExportKey() returns (r: Result<ExportedKey>)
      ensures r.Err? <==> !extractable
      ensures r.Err? ==> r.msg == "key is not extractable"
      ensures r.Ok? ==> r.value == ExportedKey(n, e, d)
    {
      if !extractable {
        return Err("key is not extractable");
      }
      r := Ok(ExportedKey(n, e, d));
    }
  }

  /** The static `generateKey`: a fresh cipher with generated key fields. */
  method GenerateKey(modulusLength: nat, extractable: bool, jwk: Jwk, decode: Base64Decode) returns (r: Result<RSACipher>)
    ensures var kb := CeilDiv(modulusLength, 8);
      r.Ok? <==> JwkMember(jwk.n, decode, kb).Ok? && JwkMember(jwk.e, decode, kb).Ok? && JwkMember(jwk.d, decode, kb).Ok?
    ensures r.Ok? ==> fresh(r.value) && r.value.keyBytes == CeilDiv(modulusLength, 8)
    ensures r.Ok? ==> r.value.n.Some? && r.value.e.Some? && r.value.d.Some?
    ensures r.Ok? ==> |r.value.n.value| == |r.value.e.value| == r.value.keyBytes
    ensures r.Ok? ==> r.value.nBig == Some(BE(r.value.n.value)) && r.value.dBig.Some?
    ensures r.Ok? ==> r.value.extractable == extractable
  {
    var cipher := new RSACipher();
    var g := cipher.GenerateKey(modulusLength, extractable, jwk, decode);
    if g.Err? {
      return Err(g.msg);
    }
    r := Ok(cipher);
  }

  /** The static `importKey`: only the usage list ["encrypt"] is accepted,
      and then the raw n and e are imported into a fresh cipher. */
  method ImportKey(key: PublicKeyData, extractable: bool, usages: seq<string>) returns (r: Result<RSACipher>)
    ensures r.Ok? <==> usages == ["encrypt"] && |key.n| == |key.e|
    ensures usages != ["encrypt"] ==> r == Err("only support importing RSA public key")
    ensures r.Ok? ==> fresh(r.value) && r.value.keyBytes == |key.n| && r.value.keyLength == 8 * |key.n|
    ensures r.Ok? ==> r.value.n == Some(key.n) && r.value.e == Some(key.e)
    ensures r.Ok? ==> r.value.nBig == Some(BE(key.n)) && r.value.eBig == Some(BE(key.e))
    ensures r.Ok? ==> r.value.d.None? && r.value.dBig.None? && r.value.extractable == extractable
  {
    if |usages| != 1 || usages[0] != "encrypt" {
      return Err("only support importing RSA public key");
    }
    var cipher := new RSACipher();
    var i := cipher.ImportRaw(key, extractable);
    if i.Err? {
      return Err(i.msg);
    }
    r := Ok(cipher);
  }
}
