/** Diffie-Hellman key agreement as `DHCipher` performs it: a random
    private key as long as the prime, the public key g^x mod p and the
    shared secret pub^x mod p, each written as a fixed-width big-endian
    byte string.

    `modPow` is a parameter; byte strings are read as integers with `BE`
    and written back with `ToBE` (the low `len` bytes, big-endian). */
module DH {
  import opened Bytes

  /** `modPow(base, exponent, modulus)`. */
  type ModPow = (nat, nat, nat) -> nat

  /** `DHPublicKey`: a wrapper around the public key bytes. */
  class DHPublicKey {
    const key: seq<byte>

    constructor(key: seq<byte>)
      ensures this.key == key
    {
      this.key := key;
    }

    /** `exportKey` hands back the wrapped bytes unchanged. */
    function ExportKey(): (r: seq<byte>)
      ensures r == key
    {
      key
    }
  }

  class DHCipher {
    var keyBytes: nat
    var g: Option<nat>
    var p: Option<nat>
    var privateKey: Option<seq<byte>>
    var privateKeyBig: nat
    var publicKey: seq<byte>

    constructor()
      ensures g.None? && p.None? && privateKey.None?
    {
      g := None;
      p := None;
      privateKey := None;
    }

    /** `_generateKey`: the key size is the byte length of p, the private
        key that many random bytes, and the public key g^x mod p in that
        many bytes. */
    method GenerateKeyFields(g: seq<byte>, p: seq<byte>, random: nat -> byte, modPow: ModPow)
      modifies this
      ensures keyBytes == |p| && this.g == Some(BE(g)) && this.p == Some(BE(p))
      ensures privateKey == Some(RandomBytes(random, |p|)) && privateKeyBig == BE(privateKey.value)
      ensures publicKey == ToBE(modPow(BE(g), privateKeyBig, BE(p)), keyBytes)
    {
      keyBytes := |p|;
      this.g := Some(BE(g));
      this.p := Some(BE(p));
      var x := RandomBytes(random, keyBytes);
      privateKey := Some(x);
      privateKeyBig := BE(x);
      publicKey := ToBE(modPow(BE(g), privateKeyBig, BE(p)), keyBytes);
    }

    /** `deriveBits`: pub^x mod p, written big-endian in as many bytes as
        the larger of ceil(length / 8) and the key size. The source keeps
        the leading bytes of that string; since the secret is below p, it
        fits in the key size and nothing is cut. */
    function DeriveBits(pub: seq<byte>, length: nat, modPow: ModPow): (r: seq<byte>)
      reads this
      requires p.Some?
      ensures |r| == Max(CeilDiv(length, 8), keyBytes)
      ensures BE(r) == modPow(BE(pub), privateKeyBig, p.value) % Pow256(|r|)
    {
      var len := Max(CeilDiv(length, 8), keyBytes);
      BEOfToBE(modPow(BE(pub), privateKeyBig, p.value), len);
      ToBE(modPow(BE(pub), privateKeyBig, p.value), len)
    }
  }

  /** The static `generateKey`: a fresh cipher and a public key object that
      wraps exactly the cipher's public key bytes. */
  method GenerateKey(g: seq<byte>, p: seq<byte>, random: nat -> byte, modPow: ModPow)
    returns (privateKey: DHCipher, publicKey: DHPublicKey)
    ensures fresh(privateKey) && fresh(publicKey)
    ensures publicKey.ExportKey() == privateKey.publicKey
    ensures privateKey.keyBytes == |p| && |publicKey.key| == |p|
    ensures privateKey.publicKey == ToBE(modPow(BE(g), privateKey.privateKeyBig, BE(p)), |p|)
  {
    privateKey := new DHCipher();
    privateKey.GenerateKeyFields(g, p, random, modPow);
    publicKey := new DHPublicKey(privateKey.publicKey);
  }

  /* ---------- agreement ---------- */

  function Pow(x: nat, k: nat): nat
  {
    if k == 0 then 1 else x * Pow(x, k - 1)
  }

  lemma {:induction false} PowAdd(x: nat, a: nat, b: nat)
    ensures Pow(x, a + b) == Pow(x, a) * Pow(x, b)
    decreases a
  {
    if a > 0 {
      PowAdd(x, a - 1, b);
      assert Pow(x, a + b) == x * Pow(x, a - 1 + b);
    }
  }

  lemma {:induction false} PowMul(x: nat, a: nat, b: nat)
    ensures Pow(Pow(x, a), b) == Pow(x, a * b)
    decreases b
  {
    if b > 0 {
      PowMul(x, a, b - 1);
      assert a * b == a + a * (b - 1);
      PowAdd(x, a, a * (b - 1));
    }
  }

  lemma {:induction false} MulMod(a: nat, b: nat, m: nat)
    requires m > 0
    ensures (a * b) % m == ((a % m) * b) % m
  {
    var q := a / m;
    var r := a % m;
    assert a * b == m * (q * b) + r * b;
    var q2 := (r * b) / m;
    var r2 := (r * b) % m;
    assert a * b == m * (q * b + q2) + r2;
    ModUnique(a * b, m, q * b + q2, r2);
  }

  lemma {:induction false} MulModBoth(a: nat, b: nat, m: nat)
    requires m > 0
    ensures (a * b) % m == ((a % m) * (b % m)) % m
  {
    MulMod(a, b, m);
    assert (a % m) * b == b * (a % m);
    MulMod(b, a % m, m);
    assert (b % m) * (a % m) == (a % m) * (b % m);
  }

  /** Reducing the base modulo m first does not change x^k mod m. */
  lemma {:induction false} PowMod(x: nat, k: nat, m: nat)
    requires m > 0
    ensures Pow(x % m, k) % m == Pow(x, k) % m
    decreases k
  {
    if k > 0 {
      var y := x % m;
      var a := Pow(y, k - 1);
      var b := Pow(x, k - 1);
      PowMod(x, k - 1, m);
      assert a % m == b % m;
      ModUnique(y, m, 0, y);
      assert y % m == x % m;
      MulModBoth(y, a, m);
      MulModBoth(x, b, m);
      assert Pow(y, k) == y * a && Pow(x, k) == x * b;
    }
  }

  /** A public key read back from its bytes is the value it encodes, since
      g^x mod p is below p, and p fits in keyBytes bytes. */
  lemma PublicValue(modPow: ModPow, g: nat, x: nat, p: seq<byte>)
    requires forall b: nat, k: nat, m: nat :: m > 0 ==> modPow(b, k, m) == Pow(b, k) % m
    requires BE(p) > 0
    ensures BE(ToBE(modPow(g, x, BE(p)), |p|)) == Pow(g, x) % BE(p)
  {
    var v := modPow(g, x, BE(p));
    assert v == Pow(g, x) % BE(p) && v < BE(p) < Pow256(|p|);
    BEOfToBE(v, |p|);
    ModUnique(v, Pow256(|p|), 0, v);
  }

  /** Both sides of an exchange over the same g and p derive the same
      secret: (g^y mod p)^x mod p == (g^x mod p)^y mod p, whatever output
      length is asked for. */
  lemma Agreement(modPow: ModPow, g: nat, p: seq<byte>, x: nat, y: nat, len: nat)
    requires forall b: nat, k: nat, m: nat :: m > 0 ==> modPow(b, k, m) == Pow(b, k) % m
    requires BE(p) > 0
    ensures ToBE(modPow(BE(ToBE(modPow(g, y, BE(p)), |p|)), x, BE(p)), len)
         == ToBE(modPow(BE(ToBE(modPow(g, x, BE(p)), |p|)), y, BE(p)), len)
  {
    var m := BE(p);
    PublicValue(modPow, g, y, p);
    PublicValue(modPow, g, x, p);
    PowMod(Pow(g, y), x, m);
    PowMod(Pow(g, x), y, m);
    PowMul(g, y, x);
    PowMul(g, x, y);
    assert y * x == x * y;
  }
}
