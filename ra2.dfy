/** The per-direction message cipher of the RA2 (RSA-AES) security type:
    AES-EAX under a session key, a 16-byte nonce counter that advances
    after every message, and frames of 2-byte length ‖ ciphertext ‖ tag. */
module RA2 {
  import opened Bytes
  import AES

  /* ---------- the nonce counter ---------- */

  /** The counter after one message: byte 0 is incremented, and the carry
      runs upward while a byte wraps from 255 to 0. */
  function Increment(s: seq<byte>): (r: seq<byte>)
    ensures |r| == |s|
  {
    if s == [] then []
    else if s[0] == 255 then [0] + Increment(s[1..])
    else [s[0] + 1] + s[1..]
  }

  lemma {:induction false} ScaleMod(x: nat, p: nat)
    requires p > 0
    ensures (256 * x) % (256 * p) == 256 * (x % p)
  {
    assert 256 * x == (256 * p) * (x / p) + 256 * (x % p);
    ModUnique(256 * x, 256 * p, x / p, 256 * (x % p));
  }

  /** Read little-endian, the counter goes up by one modulo 2^(8·len). */
  lemma {:induction false} IncrementLE(s: seq<byte>)
    ensures LE(Increment(s)) == (LE(s) + 1) % Pow256(|s|)
    decreases |s|
  {
    if s != [] {
      var t := s[1..];
      var p := Pow256(|t|);
      assert Pow256(|s|) == 256 * p;
      if s[0] == 255 {
        IncrementLE(t);
        assert ([0] + Increment(t))[1..] == Increment(t);
        assert LE(s) + 1 == 256 * (LE(t) + 1);
        ScaleMod(LE(t) + 1, p);
      } else {
        assert ([s[0] + 1] + t)[1..] == t;
        assert LE(s) + 1 <= 255 + 256 * (p - 1);
        ModUnique(LE(s) + 1, 256 * p, 0, LE(s) + 1);
      }
    }
  }

  /** Where the carry stops: bytes below `i` were 255 and become 0, byte
      `i` goes up by one, the rest is kept. */
  lemma {:induction false} IncrementStops(s: seq<byte>, i: nat)
    requires i < |s| && s[i] != 255
    requires forall k :: 0 <= k < i ==> s[k] == 255
    ensures Increment(s) == Zeros(i) + [s[i] + 1] + s[i + 1..]
    decreases i
  {
    if i > 0 {
      IncrementStops(s[1..], i - 1);
      assert s[1..][i..] == s[i + 1..];
      assert [0] + Zeros(i - 1) == Zeros(i);
    }
  }

  /** A counter of all 255s wraps to all zeros. */
  lemma {:induction false} IncrementWraps(s: seq<byte>)
    requires forall k :: 0 <= k < |s| ==> s[k] == 255
    ensures Increment(s) == Zeros(|s|)
    decreases |s|
  {
    if s != [] {
      IncrementWraps(s[1..]);
      assert [0] + Zeros(|s| - 1) == Zeros(|s|);
    }
  }

  /** The state of the carry loop before index `i`: every byte below `i`
      was 255 and is now 0, and the others are untouched. */
  ghost predicate Carried(c0: seq<byte>, c: seq<byte>, i: nat)
  {
    |c| == |c0| == 16 && i <= 16 &&
    (forall k :: 0 <= k < i ==> c0[k] == 255 && c[k] == 0) &&
    (forall k :: i <= k < 16 ==> c[k] == c0[k])
  }

  lemma CarryStops(c0: seq<byte>, c: seq<byte>, i: nat)
    requires i < 16 && Carried(c0, c, i) && c[i] != 255
    ensures c[i := ((c[i] as int + 1) % 256) as byte] == Increment(c0)
  {
    IncrementStops(c0, i);
    assert c[i := ((c[i] as int + 1) % 256) as byte] == Zeros(i) + [c0[i] + 1] + c0[i + 1..];
  }

  lemma CarryGoesOn(c0: seq<byte>, c: seq<byte>, i: nat)
    requires i < 16 && Carried(c0, c, i) && c[i] == 255
    ensures Carried(c0, c[i := ((c[i] as int + 1) % 256) as byte], i + 1)
  {
  }

  lemma CarryWraps(c0: seq<byte>, c: seq<byte>)
    requires Carried(c0, c, 16)
    ensures c == Increment(c0)
  {
    IncrementWraps(c0);
    assert c == Zeros(16);
  }

  /* ---------- framing ---------- */

  /** The frame `makeMessage` produces with key `e` and nonce `counter`:
      the length as 2 bytes (mod 65536), then the EAX output over the
      message with those 2 bytes as associated data. */
  function Frame(e: AES.Cipher, counter: seq<byte>, m: seq<byte>): (r: seq<byte>)
    ensures |r| == |m| + 18 && U16(r[0], r[1]) == |m| % 65536
  {
    var ad := Be16(|m|);
    ad + AES.FromOctets(AES.Seal(e, AES.ToOctets(counter), AES.ToOctets(ad), AES.ToOctets(m)))
  }

  /** What `receiveMessage(length, data)` returns: the EAX decryption of
      `data` with the 2-byte length as associated data, or nothing. */
  function Unframe(e: AES.Cipher, counter: seq<byte>, length: nat, data: seq<byte>): (r: Option<seq<byte>>)
    ensures r.Some? ==> |data| >= 16 && |r.value| == |data| - 16
  {
    match AES.Open(e, AES.ToOctets(counter), AES.ToOctets(Be16(length)), AES.ToOctets(data))
    case None => None
    case Some(p) => Some(AES.FromOctets(p))
  }

  /** A frame read back by a receiver with the same key and counter: the
      length field gives the message length, and the rest decrypts to the
      message. */
  lemma FrameRoundTrip(e: AES.Cipher, counter: seq<byte>, m: seq<byte>)
    requires |m| < 65536
    ensures var f := Frame(e, counter, m);
      U16(f[0], f[1]) == |m| && Unframe(e, counter, U16(f[0], f[1]), f[2..]) == Some(m)
  {
    var f := Frame(e, counter, m);
    var ad := Be16(|m|);
    var s := AES.Seal(e, AES.ToOctets(counter), AES.ToOctets(ad), AES.ToOctets(m));
    assert f[2..] == AES.FromOctets(s);
    AES.BytesRoundTrip(s);
    assert AES.ToOctets(f[2..]) == s;
    AES.OpenSeal(e, AES.ToOctets(counter), AES.ToOctets(ad), AES.ToOctets(m));
    AES.OctetsRoundTrip(m);
    ModUnique(|m|, 65536, 0, |m|);
    assert Unframe(e, counter, |m|, f[2..]) == Some(AES.FromOctets(AES.ToOctets(m)));
  }

  /* ---------- the cipher object ---------- */

  /** `RA2Cipher`: an AES-EAX key (none until `setKey`) and the counter,
      a 16-byte array incremented in place. */
  class RA2Cipher {
    var cipher: Option<AES.AESEAXCipher>
    const counter: array<byte>

    ghost predicate Valid()
      reads this, counter, if cipher.Some? then {cipher.value} else {}
    {
      counter.Length == 16 &&
      (cipher.Some? ==> cipher.value.Valid() && cipher.value.ctrKey.Some?)
    }

    /** The AES key in use. */
    function Key(): AES.Cipher
      reads this, if cipher.Some? then {cipher.value} else {}
      requires cipher.Some? && cipher.value.ctrKey.Some?
    {
      cipher.value.ctrKey.value
    }

    constructor()
      ensures Valid() && cipher.None? && fresh(counter) && counter[..] == Zeros(16)
    {
      cipher := None;
      counter := new byte[16](_ => 0);
    }

    /** `setKey`: a fresh AES-EAX cipher imported from the raw key. */
    method SetKey(key: seq<byte>, aes: AES.KeyImport)
      requires Valid()
      modifies this
      ensures Valid() && cipher.Some? && fresh(cipher.value)
      ensures cipher.value.ctrKey == Some(aes(key))
    {
      var c := new AES.AESEAXCipher();
      c.ImportKey(key, aes);
      cipher := Some(c);
    }

    /** The carry loop run after every message. */
    method Advance()
      requires counter.Length == 16
      modifies counter
      ensures counter[..] == Increment(old(counter[..]))
    {
      ghost var c0 := counter[..];
      var i := 0;
      while i < 16
        invariant 0 <= i <= 16
        invariant Carried(c0, counter[..], i)
      {
        var b := counter[i];
        ghost var before := counter[..];
        counter[i] := ((b as int + 1) % 256) as byte;
        if b != 255 {
          CarryStops(c0, before, i);
          return;
        }
        CarryGoesOn(c0, before, i);
        i := i + 1;
      }
      CarryWraps(c0, counter[..]);
    }

    /** `makeMessage`: the frame under the current counter, after which
        the counter advances. */
    method MakeMessage(message: seq<byte>) returns (res: seq<byte>)
      requires Valid() && cipher.Some?
      modifies counter
      ensures Valid()
      ensures res == Frame(Key(), old(counter[..]), message)
      ensures counter[..] == Increment(old(counter[..]))
    {
      var ad := Be16(|message|);
      var encrypted := cipher.value.Encrypt(AES.ToOctets(ad), AES.ToOctets(counter[..]), AES.ToOctets(message));
      Advance();
      res := ad + AES.FromOctets(encrypted);
    }

    /** `receiveMessage`: the decryption under the current counter; the
        counter advances whether or not the message authenticates. */
    method ReceiveMessage(length: nat, encrypted: seq<byte>) returns (r: Option<seq<byte>>)
      requires Valid() && cipher.Some?
      modifies counter
      ensures Valid()
      ensures r == Unframe(Key(), old(counter[..]), length, encrypted)
      ensures counter[..] == Increment(old(counter[..]))
    {
      var ad := Be16(length);
      var res := cipher.value.Decrypt(AES.ToOctets(ad), AES.ToOctets(counter[..]), AES.ToOctets(encrypted));
      Advance();
      r := if res.Some? then Some(AES.FromOctets(res.value)) else None;
    }
  }

  /** Two ciphers with the same key and the same counter, one on each side
      of the connection: what one sends, the other receives, and both
      counters advance alike. */
  method Exchange(sender: RA2Cipher, receiver: RA2Cipher, m: seq<byte>) returns (f: seq<byte>, r: Option<seq<byte>>)
    requires sender.Valid() && receiver.Valid() && sender.cipher.Some? && receiver.cipher.Some?
    requires sender.Key() == receiver.Key() && sender.counter[..] == receiver.counter[..]
    requires sender.counter != receiver.counter && |m| < 65536
    modifies sender.counter, receiver.counter
    ensures r == Some(m) && sender.counter[..] == receiver.counter[..]
  {
    FrameRoundTrip(sender.Key(), sender.counter[..], m);
    f := sender.MakeMessage(m);
    r := receiver.ReceiveMessage(U16(f[0], f[1]), f[2..]);
  }
}
