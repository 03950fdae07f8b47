/** The client side of the RA2ne (RSA-AES) authentication handshake:
    the pending-request slots that tie the handshake's waits to socket
    data, server approval and credentials, the length checks it makes on
    what the server sends, and the byte layouts of what it builds.

    The handshake is one asynchronous function in the source. Here each
    stretch of it between two awaits is a method of the state object; the
    wait that ends a stretch is recorded in the slots, and the next
    stretch requires what the awaited promise stands for. */
module RA2Auth {
  import opened Bytes
  import Strings
  import Websock
  import AES
  import RSA
  import RA2

  /* ---------- pending-request slots ---------- */

  /** A promise handed out by one of the wait helpers. */
  datatype Promise = Pending | Resolved | Rejected(reason: string)

  /** A check left behind by a wait that could not resolve at once: the
      promise it resolves and the byte count (socket waits) or subtype
      (credential waits) it checks for. */
  datatype Check = Check(promise: nat, need: nat)

  /** The slot fields of the state object, with every promise each kind
      of wait has handed out (by number, oldest first) and, in each
      resolve/reject slot, the number of the promise it settles. */
  datatype Slots = Slots(
    sockWaits: seq<Promise>, checkSock: Option<Check>, sockReject: Option<nat>,
    credentialWaits: seq<Promise>, checkCredentials: Option<Check>, credentialsReject: Option<nat>,
    approvals: seq<Promise>, approveResolve: Option<nat>, approveReject: Option<nat>)

  /** The user's credentials as the `getCredentials` callback reports
      them at the time of the call. */
  datatype Credentials = Credentials(username: Option<string>, password: Option<string>)

  /** The `hasCredentials` test of `_waitCredentialsAsync`. */
  predicate HasCredentials(subtype: nat, c: Credentials)
  {
    (subtype == 1 && c.username.Some? && c.password.Some?) || (subtype == 2 && c.password.Some?)
  }

  /** Calling a slot's resolve or reject function: a promise settles once,
      later calls do nothing. */
  function SettleAt(ps: seq<Promise>, slot: Option<nat>, outcome: Promise): (r: seq<Promise>)
    ensures |r| == |ps|
  {
    if slot.Some? && slot.value < |ps| && ps[slot.value].Pending? then ps[slot.value := outcome] else ps
  }

  const NoSlots := Slots([], None, None, [], None, None, [], None, None)

  /** `_waitSockAsync(len)` with `unread` bytes queued: a new promise,
      resolved at once when the data is there and otherwise pending with
      the check and the reject function stored. */
  function WaitSockSlots(s: Slots, unread: nat, need: nat): (r: Slots)
  {
    var k := |s.sockWaits|;
    if unread >= need then s.(sockWaits := s.sockWaits + [Resolved])
    else s.(sockWaits := s.sockWaits + [Pending], checkSock := Some(Check(k, need)), sockReject := Some(k))
  }

  /** `_waitApproveKeyAsync`: a new pending promise whose resolve and
      reject functions both go into their slots. */
  function WaitApproveSlots(s: Slots): (r: Slots)
  {
    var k := |s.approvals|;
    s.(approvals := s.approvals + [Pending], approveResolve := Some(k), approveReject := Some(k))
  }

  /** `_waitCredentialsAsync(subtype)` with the credentials `c` at hand. */
  function WaitCredentialsSlots(s: Slots, subtype: nat, c: Credentials): (r: Slots)
  {
    var k := |s.credentialWaits|;
    if HasCredentials(subtype, c) then s.(credentialWaits := s.credentialWaits + [Resolved])
    else s.(credentialWaits := s.credentialWaits + [Pending], checkCredentials := Some(Check(k, subtype)),
            credentialsReject := Some(k))
  }

  /** The socket half of `checkInternalEvents`: a pending check resolves
      its promise and clears both socket slots, but only once enough data
      is queued. */
  function CheckSockSlots(s: Slots, unread: nat): (r: Slots)
  {
    if s.checkSock.Some? && unread >= s.checkSock.value.need then
      s.(sockWaits := SettleAt(s.sockWaits, Some(s.checkSock.value.promise), Resolved), checkSock := None, sockReject := None)
    else s
  }

  /** The credentials half of `checkInternalEvents`. */
  function CheckCredentialsSlots(s: Slots, c: Credentials): (r: Slots)
  {
    if s.checkCredentials.Some? && HasCredentials(s.checkCredentials.value.need, c) then
      s.(credentialWaits := SettleAt(s.credentialWaits, Some(s.checkCredentials.value.promise), Resolved),
         checkCredentials := None, credentialsReject := None)
    else s
  }

  /** `approveServer`: resolves the pending approval and clears the resolve
      slot; with nothing pending it does nothing. The reject slot stays. */
  function ApproveSlots(s: Slots): (r: Slots)
  {
    if s.approveResolve.Some? then
      s.(approvals := SettleAt(s.approvals, s.approveResolve, Resolved), approveResolve := None)
    else s
  }

  const DisconnectReason := "disconnect normally"

  /** `disconnect`: every stored reject function is called and its slot
      cleared. The check closures are not touched. */
  function DisconnectSlots(s: Slots): (r: Slots)
  {
    s.(sockWaits := SettleAt(s.sockWaits, s.sockReject, Rejected(DisconnectReason)), sockReject := None,
       credentialWaits := SettleAt(s.credentialWaits, s.credentialsReject, Rejected(DisconnectReason)),
       credentialsReject := None,
       approvals := SettleAt(s.approvals, s.approveReject, Rejected(DisconnectReason)), approveReject := None)
  }

  /** Every promise that is still pending is the one its slots refer to:
      what the handshake's own sequence of waits maintains. */
  ghost predicate PendingHeld(s: Slots)
  {
    (forall i :: 0 <= i < |s.sockWaits| && s.sockWaits[i].Pending? ==>
       s.sockReject == Some(i) && s.checkSock.Some? && s.checkSock.value.promise == i) &&
    (forall i :: 0 <= i < |s.credentialWaits| && s.credentialWaits[i].Pending? ==>
       s.credentialsReject == Some(i) && s.checkCredentials.Some? && s.checkCredentials.value.promise == i) &&
    (forall i :: 0 <= i < |s.approvals| && s.approvals[i].Pending? ==>
       s.approveReject == Some(i) && s.approveResolve == Some(i))
  }

  /** No promise of the list is pending: every earlier wait of that kind
      has been awaited to its end. */
  ghost predicate NoneIn(ps: seq<Promise>)
  {
    forall i :: 0 <= i < |ps| ==> !ps[i].Pending?
  }

  /** After a disconnect no promise of a handshake is left pending. */
  lemma DisconnectSettlesAll(s: Slots)
    requires PendingHeld(s)
    ensures var r := DisconnectSlots(s);
      NoneIn(r.sockWaits) && NoneIn(r.credentialWaits) && NoneIn(r.approvals) && PendingHeld(r)
  {
  }

  /** A socket wait taken while no earlier one is pending keeps every
      pending promise held, and so do the checks and the approval. */
  lemma WaitSockKeepsHeld(s: Slots, unread: nat, need: nat)
    requires PendingHeld(s)
    requires NoneIn(s.sockWaits)
    ensures PendingHeld(WaitSockSlots(s, unread, need))
  {
  }

  lemma WaitApproveKeepsHeld(s: Slots)
    requires PendingHeld(s) && NoneIn(s.approvals)
    ensures PendingHeld(WaitApproveSlots(s))
  {
  }

  lemma WaitCredentialsKeepsHeld(s: Slots, subtype: nat, c: Credentials)
    requires PendingHeld(s) && NoneIn(s.credentialWaits)
    ensures PendingHeld(WaitCredentialsSlots(s, subtype, c))
  {
  }

  lemma CheckKeepsHeld(s: Slots, unread: nat, c: Credentials)
    requires PendingHeld(s)
    ensures PendingHeld(CheckCredentialsSlots(CheckSockSlots(s, unread), c))
  {
  }

  lemma ApproveKeepsHeld(s: Slots)
    requires PendingHeld(s)
    ensures PendingHeld(ApproveSlots(s))
  {
  }

  /* ---------- checks and layouts ---------- */

  /** The bounds on the server's key length in bits: at least 1024 and at
      most 8192, after which the key occupies ceil(bits / 8) bytes. */
  function ServerKeyBytes(bits: nat): (r: Result<nat>)
    ensures r.Ok? <==> 1024 <= bits <= 8192
    ensures bits < 1024 ==> r == Err("RA2: server public key is too short: " + Strings.Decimal(bits))
    ensures bits > 8192 ==> r == Err("RA2: server public key is too long: " + Strings.Decimal(bits))
    ensures r.Ok? ==> r.value == CeilDiv(bits, 8)
  {
    if bits < 1024 then Err("RA2: server public key is too short: " + Strings.Decimal(bits))
    else if bits > 8192 then Err("RA2: server public key is too long: " + Strings.Decimal(bits))
    else Ok(CeilDiv(bits, 8))
  }

  /** An accepted key has between 128 and 1024 bytes, enough room for the
      16-byte client random under PKCS #1 v1.5 padding and few enough for
      a 2-byte length field. */
  lemma ServerKeyBytesRange(bits: nat)
    requires ServerKeyBytes(bits).Ok?
    ensures var kb := ServerKeyBytes(bits).value;
      128 <= kb <= 1024 && 16 <= kb - 11 && kb < 65536
  {
  }

  /** `buf.set(src, off)` on a typed array: `src` is copied over the bytes
      from `off` on, the rest of `buf` is kept. */
  function Place(buf: seq<byte>, src: seq<byte>, off: nat): (r: seq<byte>)
    requires off + |src| <= |buf|
    ensures |r| == |buf| && r[off..off + |src|] == src
    ensures forall k :: 0 <= k < |buf| && !(off <= k < off + |src|) ==> r[k] == buf[k]
  {
    buf[..off] + src + buf[off + |src|..]
  }

  /** Two arrays set one after the other into a zeroed buffer of `size`
      bytes, the second at offset `off`: how the source builds the server
      key blob, the session key inputs and the hash inputs. */
  function Joined(a: seq<byte>, b: seq<byte>, size: nat, off: nat): (r: seq<byte>)
    requires |a| <= size && off + |b| <= size
    ensures |r| == size
  {
    Place(Place(Zeros(size), a, 0), b, off)
  }

  /** With the second array placed right after the first and the buffer
      exactly as large as both, the result is their concatenation. */
  lemma JoinedIsConcat(a: seq<byte>, b: seq<byte>)
    ensures Joined(a, b, |a| + |b|, |a|) == a + b
  {
    var r := Joined(a, b, |a| + |b|, |a|);
    assert forall k :: 0 <= k < |a| ==> r[k] == Place(Zeros(|a| + |b|), a, 0)[k];
    assert r[..|a|] == a;
    assert r[|a|..] == b;
    assert r == r[..|a|] + r[|a|..];
  }

  /** The blob shown to the user for approval: the 4 length bytes as
      received, then n at offset 4, then e at offset 4 + keyBytes. */
  function ServerPublicKey(lengthField: seq<byte>, n: seq<byte>, e: seq<byte>): (r: seq<byte>)
    requires |lengthField| == 4 && |n| == |e|
    ensures r == lengthField + n + e
  {
    var r := Place(Joined(lengthField, n, 4 + 2 * |n|, 4), e, 4 + |n|);
    JoinedIsConcat(lengthField, n);
    assert r[..4 + |n|] == Joined(lengthField, n, 4 + |n|, 4);
    r
  }

  /** The client's key length, 2048, written byte by byte with masks and
      shifts. */
  function ClientKeyLengthField(bits: nat): (r: seq<byte>)
    ensures |r| == 4
  {
    [((bits / 0x100_0000) % 256) as byte, ((bits / 0x1_0000) % 256) as byte,
     ((bits / 0x100) % 256) as byte, (bits % 256) as byte]
  }

  /** The client's own key blob: the length field, n and e. */
  function ClientPublicKey(n: seq<byte>, e: seq<byte>): (r: seq<byte>)
    requires |n| == |e|
    ensures r == ClientKeyLengthField(2048) + n + e
  {
    var r := Place(Joined(ClientKeyLengthField(2048), n, 4 + 2 * |n|, 4), e, 4 + |n|);
    JoinedIsConcat(ClientKeyLengthField(2048), n);
    assert r[..4 + |n|] == Joined(ClientKeyLengthField(2048), n, 4 + |n|, 4);
    r
  }

  /** Read back with the 32-bit shift the client applies to the server's
      blob, the client's length field is 2048, which passes the same
      bounds and gives 256-byte members. */
  lemma ClientKeyLengthAccepted()
    ensures U32(ClientKeyLengthField(2048)) == 2048
    ensures ServerKeyBytes(U32(ClientKeyLengthField(2048))) == Ok(256)
  {
    var f := ClientKeyLengthField(2048);
    assert f == [0, 0, 8, 0];
    assert f[..3][..2][..1][..0] == [];
    assert BE(f[..1]) == 0;
    assert BE(f[..2]) == 0;
    assert f[..3][..2] == f[..2] && f[..2][..1] == f[..1] && f[..1][..0] == [];
    assert f[..3][2] == 8;
    assert BE(f[..3]) == 8;
  }

  /** The client random message: keyBytes as two bytes, then the
      encrypted random at offset 2. */
  function ClientRandomMessage(keyBytes: nat, encrypted: seq<byte>): (r: seq<byte>)
    requires |encrypted| <= keyBytes
    ensures |r| == 2 + keyBytes && r[2..2 + |encrypted|] == encrypted
  {
    Place([((keyBytes / 256) % 256) as byte, (keyBytes % 256) as byte] + Zeros(keyBytes), encrypted, 2)
  }

  /** A ciphertext as long as the key gives a message whose 2-byte field
      the server reads back as the ciphertext's length. */
  lemma ClientRandomMessageLayout(keyBytes: nat, encrypted: seq<byte>)
    requires |encrypted| == keyBytes < 65536
    ensures ClientRandomMessage(keyBytes, encrypted) == Be16(keyBytes) + encrypted
    ensures U16(ClientRandomMessage(keyBytes, encrypted)[0], ClientRandomMessage(keyBytes, encrypted)[1]) == keyBytes
  {
    var r := ClientRandomMessage(keyBytes, encrypted);
    assert r[..2] == Be16(keyBytes);
    assert r == r[..2] + r[2..];
    ModUnique(keyBytes, 65536, 0, keyBytes);
  }

  /** A SHA-1 digest. */
  type Digest = d: seq<byte> | |d| == 20 witness [0, 0, 0, 0, 0, 0, 0, 0, 0, 0, 0, 0, 0, 0, 0, 0, 0, 0, 0, 0]

  /** `crypto.subtle.digest("SHA-1", …)`. */
  type Sha1 = seq<byte> -> Digest

  /** A session key: the digest of two 16-byte randoms set into a 32-byte
      buffer, cut to 16 bytes. The client's key hashes the server random
      first, the server's key the client random first. */
  function SessionKey(sha1: Sha1, first: seq<byte>, second: seq<byte>): (r: seq<byte>)
    requires |first| == 16 && |second| == 16
    ensures |r| == 16 && r == sha1(first + second)[..16]
  {
    JoinedIsConcat(first, second);
    sha1(Joined(first, second, 32, 16))[..16]
  }

  /** The input of a handshake hash: the own side's key blob, then the
      other side's at offset 4 + 2 * ownKeyBytes, in a buffer of
      8 + 2 * serverKeyBytes + 2 * clientKeyBytes bytes. */
  function HashInput(own: seq<byte>, other: seq<byte>, ownKeyBytes: nat, size: nat): (r: seq<byte>)
    requires |own| <= size && 4 + 2 * ownKeyBytes + |other| <= size
    ensures |r| == size
  {
    Joined(own, other, size, 4 + 2 * ownKeyBytes)
  }

  /** With blobs of the sizes the handshake builds, the hash input is the
      two blobs back to back; so the server's hash of its own view equals
      the client's reconstruction of it. */
  lemma HashInputLayout(serverKey: seq<byte>, clientKey: seq<byte>, sk: nat, ck: nat)
    requires |serverKey| == 4 + 2 * sk && |clientKey| == 4 + 2 * ck
    ensures HashInput(serverKey, clientKey, sk, 8 + 2 * sk + 2 * ck) == serverKey + clientKey
    ensures HashInput(clientKey, serverKey, ck, 8 + 2 * sk + 2 * ck) == clientKey + serverKey
  {
    JoinedIsConcat(serverKey, clientKey);
    JoinedIsConcat(clientKey, serverKey);
  }

  /** `.slice(0, 255)`. */
  function Truncate(s: seq<byte>): (r: seq<byte>)
    ensures |r| <= 255 && |r| <= |s| && r == s[..|r|] && (|s| <= 255 ==> r == s)
  {
    if |s| <= 255 then s else s[..255]
  }

  /** The credentials message: a length byte and the username, then a
      length byte and the password. */
  function CredentialsMessage(username: seq<byte>, password: seq<byte>): (r: seq<byte>)
    requires |username| <= 255 && |password| <= 255
    ensures |r| == |username| + |password| + 2
  {
    [|username| as byte] + username + [|password| as byte] + password
  }

  /** The server's reading of a credentials message: each field is its
      length byte followed by that many bytes, and nothing may follow. */
  function ParseCredentials(m: seq<byte>): (r: Option<(seq<byte>, seq<byte>)>)
    ensures r.Some? ==> |r.value.0| + |r.value.1| + 2 == |m|
  {
    if |m| == 0 then None
    else
      var ul := m[0] as nat;
      if 1 + ul + 1 > |m| then None
      else
        var pl := m[1 + ul] as nat;
        if 2 + ul + pl != |m| then None
        else Some((m[1..1 + ul], m[2 + ul..]))
  }

  /** Whatever fits in a length byte is read back unchanged. */
  lemma CredentialsRoundTrip(username: seq<byte>, password: seq<byte>)
    requires |username| <= 255 && |password| <= 255
    ensures ParseCredentials(CredentialsMessage(username, password)) == Some((username, password))
  {
    var m := CredentialsMessage(username, password);
    assert m[0] as nat == |username|;
    assert m[1 + |username|] as nat == |password|;
    assert m[1..1 + |username|] == username;
    assert m[2 + |username|..] == password;
  }

  /** The loop that fills the credentials array byte by byte. */
  method BuildCredentials(username: seq<byte>, password: seq<byte>) returns (r: seq<byte>)
    requires |username| <= 255 && |password| <= 255
    ensures r == CredentialsMessage(username, password)
  {
    var ul := |username|;
    var credentials := new byte[ul + |password| + 2](_ => 0);
    credentials[0] := ul as byte;
    credentials[ul + 1] := |password| as byte;
    var i := 0;
    while i < ul
      invariant 0 <= i <= ul
      invariant credentials[0] == ul as byte && credentials[ul + 1] == |password| as byte
      invariant forall k :: 0 <= k < i ==> credentials[k + 1] == username[k]
    {
      credentials[i + 1] := username[i];
      i := i + 1;
    }
    i := 0;
    while i < |password|
      invariant 0 <= i <= |password|
      invariant credentials[0] == ul as byte && credentials[ul + 1] == |password| as byte
      invariant forall k :: 0 <= k < ul ==> credentials[k + 1] == username[k]
      invariant forall k :: 0 <= k < i ==> credentials[ul + 2 + k] == password[k]
    {
      credentials[ul + 2 + i] := password[i];
      i := i + 1;
    }
    r := credentials[..];
    assert r == CredentialsMessage(username, password);
  }

  /** The comparison loop over the 20 hash bytes. */
  method SameHash(received: seq<byte>, expected: Digest) returns (same: bool)
    requires |received| == 20
    ensures same <==> received == expected
  {
    var i := 0;
    while i < 20
      invariant 0 <= i <= 20
      invariant received[..i] == expected[..i]
    {
      if received[i] != expected[i] {
        return false;
      }
      assert received[..i + 1] == received[..i] + [received[i]];
      assert expected[..i + 1] == expected[..i] + [expected[i]];
      i := i + 1;
    }
    assert received == received[..20] && expected == expected[..20];
    same := true;
  }

  /** The server's n and e imported as a public key for encryption; with
      members of equal length the import cannot fail. */
  method ImportServerKey(n: seq<byte>, e: seq<byte>) returns (key: RSA.RSACipher)
    requires |n| == |e|
    ensures fresh(key) && key.keyBytes == |n|
    ensures key.nBig == Some(BE(n)) && key.eBig == Some(BE(e)) && key.dBig.None?
  {
    var imported := RSA.ImportKey(RSA.PublicKeyData(n, e), false, ["encrypt"]);
    key := imported.value;
  }

  /** Whether the JWK the key generator produced for a 2048-bit key has
      members that fit in 256 bytes. */
  predicate ClientJwkFits(jwk: RSA.Jwk, decode: RSA.Base64Decode)
  {
    RSA.JwkMember(jwk.n, decode, 256).Ok? && RSA.JwkMember(jwk.e, decode, 256).Ok? &&
    RSA.JwkMember(jwk.d, decode, 256).Ok?
  }

  /** The client's 2048-bit key pair, generated extractable and exported
      at once, and the blob announcing its public half. */
  method GenerateClientKey(jwk: RSA.Jwk, decode: RSA.Base64Decode) returns (r: Result<(RSA.RSACipher, seq<byte>)>)
    ensures r.Ok? <==> ClientJwkFits(jwk, decode)
    ensures r.Ok? ==> var key := r.value.0;
      && fresh(key) && key.keyBytes == 256 && key.n.Some? && key.e.Some?
      && |key.n.value| == 256 && |key.e.value| == 256
      && key.nBig == Some(BE(key.n.value)) && key.dBig.Some?
      && r.value.1 == ClientKeyLengthField(2048) + key.n.value + key.e.value
  {
    assert CeilDiv(2048, 8) == 256;
    var generated := RSA.GenerateKey(2048, true, jwk, decode);
    if generated.Err? {
      return Err(generated.msg);
    }
    var key := generated.value;
    var exported := key.ExportKey();
    var n, e := exported.value.n.value, exported.value.e.value;
    r := Ok((key, ClientPublicKey(n, e)));
  }

  /** The 16-byte client random, encrypted under the server's key, in the
      message that carries it. A key of at least 27 bytes always has room
      for it. */
  method EncryptClientRandom(serverKey: RSA.RSACipher, random: nat -> byte, padding: nat -> byte, modPow: RSA.ModPow)
    returns (clientRandom: seq<byte>, message: seq<byte>)
    requires serverKey.nBig.Some? && serverKey.eBig.Some? && 27 <= serverKey.keyBytes < 65536
    ensures clientRandom == RandomBytes(random, 16)
    ensures var c := RSA.EncryptValue(serverKey.keyBytes, serverKey.eBig.value, serverKey.nBig.value, clientRandom, padding, modPow);
      c.Some? && message == Be16(serverKey.keyBytes) + c.value
  {
    clientRandom := RandomBytes(random, 16);
    var encrypted := serverKey.Encrypt(clientRandom, padding, modPow);
    ClientRandomMessageLayout(serverKey.keyBytes, encrypted.value);
    message := ClientRandomMessage(serverKey.keyBytes, encrypted.value);
  }

  /** Step 5: the two message ciphers, keyed from the two randoms, each
      with its own counter starting at zero. */
  method SessionCiphers(sha1: Sha1, aes: AES.KeyImport, serverRandom: seq<byte>, clientRandom: seq<byte>)
    returns (clientCipher: RA2.RA2Cipher, serverCipher: RA2.RA2Cipher)
    requires |serverRandom| == 16 && |clientRandom| == 16
    ensures clientCipher.Valid() && clientCipher.cipher.Some? && serverCipher.Valid() && serverCipher.cipher.Some?
    ensures fresh(clientCipher) && fresh(clientCipher.counter) && fresh(clientCipher.cipher.value)
    ensures fresh(serverCipher) && fresh(serverCipher.counter) && fresh(serverCipher.cipher.value)
    ensures clientCipher.counter != serverCipher.counter
    ensures clientCipher.Key() == aes(SessionKey(sha1, serverRandom, clientRandom))
    ensures serverCipher.Key() == aes(SessionKey(sha1, clientRandom, serverRandom))
    ensures clientCipher.counter[..] == Zeros(16) && serverCipher.counter[..] == Zeros(16)
  {
    clientCipher := new RA2.RA2Cipher();
    clientCipher.SetKey(SessionKey(sha1, serverRandom, clientRandom), aes);
    serverCipher := new RA2.RA2Cipher();
    serverCipher.SetKey(SessionKey(sha1, clientRandom, serverRandom), aes);
  }

  /** The hash each side sends: the digest of its own key blob followed
      by the other side's, in the buffer the source sizes for both. */
  function HandshakeHash(sha1: Sha1, own: seq<byte>, other: seq<byte>, serverKeyBytes: nat, ownKeyBytes: nat): (r: Digest)
    requires |own| == 4 + 2 * ownKeyBytes && |other| == 8 + 2 * serverKeyBytes + 2 * 256 - |own|
    ensures r == sha1(own + other)
  {
    JoinedIsConcat(own, other);
    sha1(HashInput(own, other, ownKeyBytes, 8 + 2 * serverKeyBytes + 2 * 256))
  }

  /** The events step 7 dispatches: a request for whatever the subtype
      needs and the callback does not have yet. */
  function RequiredEvents(subtype: nat, c: Credentials): (r: seq<Event>)
    ensures |r| <= 1
  {
    if subtype == 1 && (c.username.None? || c.password.None?) then [CredentialsRequired(["username", "password"])]
    else if subtype == 2 && c.password.None? then [CredentialsRequired(["password"])]
    else []
  }

  /** For the two valid subtypes, credentials are asked for exactly when
      the credentials wait cannot resolve at once. */
  lemma RequiredExactlyWhenMissing(subtype: nat, c: Credentials)
    requires subtype == 1 || subtype == 2
    ensures RequiredEvents(subtype, c) == [] <==> HasCredentials(subtype, c)
  {
  }

  /** `encodeUTF8(s)`: a string of byte-sized characters, given here as
      their values. */
  type Utf8Encode = string -> seq<byte>

  /** The username field: the encoded username cut to 255 bytes for
      subtype 1, empty otherwise. */
  function UsernameField(subtype: nat, c: Credentials, encode: Utf8Encode): (r: seq<byte>)
    requires HasCredentials(subtype, c)
    ensures |r| <= 255 && (subtype != 1 ==> r == [])
  {
    if subtype == 1 then Truncate(encode(c.username.value)) else []
  }

  /** The password field: the encoded password cut to 255 bytes. */
  function PasswordField(subtype: nat, c: Credentials, encode: Utf8Encode): (r: seq<byte>)
    requires HasCredentials(subtype, c)
    ensures |r| <= 255 && |r| <= |encode(c.password.value)| && r == encode(c.password.value)[..|r|]
  {
    Truncate(encode(c.password.value))
  }

  /** What the server recovers from the credentials frame: the receiver
      with the same key and counter authenticates it, and parsing gives
      back both fields. */
  lemma CredentialsDelivered(e: AES.Cipher, counter: seq<byte>, username: seq<byte>, password: seq<byte>)
    requires |username| <= 255 && |password| <= 255
    ensures var f := RA2.Frame(e, counter, CredentialsMessage(username, password));
      && U16(f[0], f[1]) == |username| + |password| + 2
      && RA2.Unframe(e, counter, U16(f[0], f[1]), f[2..]) == Some(CredentialsMessage(username, password))
      && ParseCredentials(CredentialsMessage(username, password)) == Some((username, password))
  {
    RA2.FrameRoundTrip(e, counter, CredentialsMessage(username, password));
    CredentialsRoundTrip(username, password);
  }

  /* ---------- the state object ---------- */

  /** An event the handshake dispatches to its listeners. */
  datatype Event = ServerVerification(publickey: seq<byte>) | CredentialsRequired(types: seq<string>)

  class RSAAESAuthenticationState {
    var hasStarted: bool
    var sockWaits: seq<Promise>
    var checkSock: Option<Check>
    var sockReject: Option<nat>
    var credentialWaits: seq<Promise>
    var checkCredentials: Option<Check>
    var credentialsReject: Option<nat>
    var approvals: seq<Promise>
    var approveServerResolve: Option<nat>
    var approveServerReject: Option<nat>
    /** The events dispatched so far, oldest first. */
    var events: seq<Event>
    const sock: Websock.Socket

    /** The socket is consistent and every pending promise is the one its
        slots refer to. */
    ghost predicate Valid()
      reads `sockWaits, `checkSock, `sockReject, `credentialWaits, `checkCredentials, `credentialsReject,
            `approvals, `approveServerResolve, `approveServerReject, sock
    {
      sock.Valid() && PendingHeld(SlotState())
    }

    /** The slot fields as one value. */
    function SlotState(): Slots
      reads `sockWaits, `checkSock, `sockReject, `credentialWaits, `checkCredentials, `credentialsReject,
            `approvals, `approveServerResolve, `approveServerReject
    {
      Slots(sockWaits, checkSock, sockReject, credentialWaits, checkCredentials, credentialsReject,
            approvals, approveServerResolve, approveServerReject)
    }

    constructor(sock: Websock.Socket)
      requires sock.Valid()
      ensures Valid() && this.sock == sock && !hasStarted && SlotState() == NoSlots && events == []
    {
      this.sock := sock;
      hasStarted := false;
      sockWaits, checkSock, sockReject := [], None, None;
      credentialWaits, checkCredentials, credentialsReject := [], None, None;
      approvals, approveServerResolve, approveServerReject := [], None, None;
      events := [];
    }

    /** `_waitSockAsync(len)`; the result is the number of the promise. */
    method WaitSock(len: nat) returns (promise: nat)
      requires Valid() && NoneIn(sockWaits)
      modifies `sockWaits, `checkSock, `sockReject
      ensures Valid()
      ensures SlotState() == WaitSockSlots(old(SlotState()), |sock.Unread()|, len)
      ensures promise == |old(sockWaits)|
    {
      WaitSockKeepsHeld(SlotState(), |sock.Unread()|, len);
      promise := |sockWaits|;
      if |sock.data| - sock.index >= len {
        sockWaits := sockWaits + [Resolved];
      } else {
        sockWaits := sockWaits + [Pending];
        checkSock := Some(Check(promise, len));
        sockReject := Some(promise);
      }
    }

    /** `_waitApproveKeyAsync`. */
    method WaitApproveKey() returns (promise: nat)
      requires Valid() && NoneIn(approvals)
      modifies `approvals, `approveServerResolve, `approveServerReject
      ensures Valid()
      ensures SlotState() == WaitApproveSlots(old(SlotState())) && promise == |old(approvals)|
    {
      WaitApproveKeepsHeld(SlotState());
      promise := |approvals|;
      approvals := approvals + [Pending];
      approveServerResolve := Some(promise);
      approveServerReject := Some(promise);
    }

    /** `_waitCredentialsAsync(subtype)`, with `getCredentials` reporting
        `c` every time it is called. */
    method WaitCredentials(subtype: nat, c: Credentials) returns (promise: nat)
      requires Valid() && NoneIn(credentialWaits)
      modifies `credentialWaits, `checkCredentials, `credentialsReject
      ensures Valid()
      ensures SlotState() == WaitCredentialsSlots(old(SlotState()), subtype, c) && promise == |old(credentialWaits)|
    {
      WaitCredentialsKeepsHeld(SlotState(), subtype, c);
      promise := |credentialWaits|;
      if HasCredentials(subtype, c) {
        credentialWaits := credentialWaits + [Resolved];
      } else {
        credentialWaits := credentialWaits + [Pending];
        checkCredentials := Some(Check(promise, subtype));
        credentialsReject := Some(promise);
      }
    }

    /** `checkInternalEvents`: runs whichever check closures are stored. */
    method CheckInternalEvents(c: Credentials)
      requires Valid()
      modifies `sockWaits, `checkSock, `sockReject, `credentialWaits, `checkCredentials, `credentialsReject
      ensures Valid()
      ensures SlotState() == CheckCredentialsSlots(CheckSockSlots(old(SlotState()), |sock.Unread()|), c)
    {
      ghost var s0 := SlotState();
      CheckKeepsHeld(s0, |sock.Unread()|, c);
      if checkSock.Some? {
        if |sock.data| - sock.index >= checkSock.value.need {
          sockWaits := SettleAt(sockWaits, Some(checkSock.value.promise), Resolved);
          checkSock := None;
          sockReject := None;
        }
      }
      assert SlotState() == CheckSockSlots(s0, |sock.Unread()|);
      if checkCredentials.Some? {
        if HasCredentials(checkCredentials.value.need, c) {
          credentialWaits := SettleAt(credentialWaits, Some(checkCredentials.value.promise), Resolved);
          checkCredentials := None;
          credentialsReject := None;
        }
      }
      assert SlotState() == CheckCredentialsSlots(CheckSockSlots(s0, |sock.Unread()|), c);
    }

    /** `approveServer`. */
    method ApproveServer()
      requires Valid()
      modifies `approvals, `approveServerResolve
      ensures Valid()
      ensures SlotState() == ApproveSlots(old(SlotState()))
    {
      ApproveKeepsHeld(SlotState());
      if approveServerResolve.Some? {
        approvals := SettleAt(approvals, approveServerResolve, Resolved);
        approveServerResolve := None;
      }
    }

    /** `disconnect`. */
    method Disconnect()
      requires Valid()
      modifies `sockWaits, `sockReject, `credentialWaits, `credentialsReject, `approvals, `approveServerReject
      ensures Valid()
      ensures SlotState() == DisconnectSlots(old(SlotState()))
    {
      ghost var s0 := SlotState();
      DisconnectSettlesAll(s0);
      if sockReject.Some? {
        sockWaits := SettleAt(sockWaits, sockReject, Rejected(DisconnectReason));
        sockReject := None;
      }
      assert SlotState() == s0.(sockWaits := SettleAt(s0.sockWaits, s0.sockReject, Rejected(DisconnectReason)), sockReject := None);
      ghost var s1 := SlotState();
      if credentialsReject.Some? {
        credentialWaits := SettleAt(credentialWaits, credentialsReject, Rejected(DisconnectReason));
        credentialsReject := None;
      }
      assert SlotState() == s1.(credentialWaits := SettleAt(s1.credentialWaits, s1.credentialsReject, Rejected(DisconnectReason)),
                                credentialsReject := None);
      if approveServerReject.Some? {
        approvals := SettleAt(approvals, approveServerReject, Rejected(DisconnectReason));
        approveServerReject := None;
      }
      assert SlotState() == DisconnectSlots(s0);
    }
  
    /* ---------- the handshake, one stretch per await ---------- */

    /** `negotiateRA2neAuthAsync` up to its first await: the flag is set and
        the wait for the 4-byte key length is taken. */
    method Start() returns (promise: nat)
      requires Valid() && NoneIn(sockWaits)
      modifies `hasStarted, `sockWaits, `checkSock, `sockReject
      ensures Valid() && hasStarted
      ensures SlotState() == WaitSockSlots(old(SlotState()), |sock.Unread()|, 4)
    {
      hasStarted := true;
      promise := WaitSock(4);
    }

    /** Step 1 once 4 bytes are queued: the length field is peeked (it is
        echoed in the approval blob) and shifted as a 32-bit number, and
        an accepted length sets up the wait for n and e. */
    method ReadServerKeyLength() returns (r: Result<(seq<byte>, nat)>)
      requires Valid() && NoneIn(sockWaits) && |sock.Unread()| >= 4
      modifies sock, `sockWaits, `checkSock, `sockReject
      ensures Valid()
      ensures sock.data == old(sock.data) && sock.index == old(sock.index) + 4
      ensures sock.sendQueue == old(sock.sendQueue) && sock.sent == old(sock.sent)
      ensures var field := old(sock.Unread())[..4];
        match ServerKeyBytes(U32(field))
        case Err(m) => r == Err(m) && SlotState() == old(SlotState())
        case Ok(kb) => (r == Ok((field, kb)) &&
          SlotState() == WaitSockSlots(old(SlotState()), |sock.Unread()|, 2 * kb))
    {
      var field := sock.PeekBytes(4);
      var bits := sock.Shift32();
      var kb := ServerKeyBytes(bits);
      if kb.Err? {
        return Err(kb.msg);
      }
      var _ := WaitSock(2 * kb.value);
      r := Ok((field, kb.value));
    }

    /** Step 1 once n and e are queued: both are shifted and imported as the
        server's encryption key, the approval blob is built, the approval
        wait is taken and the verification event is dispatched. */
    method ReadServerKey(lengthField: seq<byte>, keyBytes: nat) returns (serverKey: RSA.RSACipher, blob: seq<byte>)
      requires Valid() && NoneIn(approvals) && |lengthField| == 4 && |sock.Unread()| >= keyBytes + keyBytes
      modifies sock, `approvals, `approveServerResolve, `approveServerReject, `events
      ensures Valid()
      ensures sock.data == old(sock.data) && sock.index == old(sock.index) + keyBytes + keyBytes
      ensures sock.sendQueue == old(sock.sendQueue) && sock.sent == old(sock.sent)
      ensures var n := old(sock.Unread())[..keyBytes];
        var e := old(sock.Unread())[keyBytes..keyBytes + keyBytes];
        && blob == lengthField + n + e
        && fresh(serverKey) && serverKey.keyBytes == keyBytes
        && serverKey.nBig == Some(BE(n)) && serverKey.eBig == Some(BE(e)) && serverKey.dBig.None?
      ensures SlotState() == WaitApproveSlots(old(SlotState()))
      ensures events == old(events) + [ServerVerification(blob)]
    {
      ghost var u := sock.Unread();
      var n := sock.ShiftBytes(keyBytes);
      var e := sock.ShiftBytes(keyBytes);
      assert n == u[..keyBytes] && e == u[keyBytes..keyBytes + keyBytes];
      serverKey := ImportServerKey(n, e);
      blob := ServerPublicKey(lengthField, n, e);
      var _ := WaitApproveKey();
      ghost var v := SlotState();
      events := events + [ServerVerification(blob)];
      assert SlotState() == v;
    }
  
    /** Step 2 once the key is approved: the client's key pair is
        generated and the blob announcing its public half is sent. */
    method SendClientKey(jwk: RSA.Jwk, decode: RSA.Base64Decode) returns (r: Result<(RSA.RSACipher, seq<byte>)>)
      requires Valid()
      modifies sock
      ensures Valid() && sock.data == old(sock.data) && sock.index == old(sock.index)
      ensures r.Ok? <==> ClientJwkFits(jwk, decode)
      ensures r.Err? ==> sock.sendQueue == old(sock.sendQueue) && sock.sent == old(sock.sent)
      ensures r.Ok? ==> var (clientKey, blob) := r.value;
        && fresh(clientKey) && clientKey.keyBytes == 256 && clientKey.n.Some? && clientKey.e.Some?
        && clientKey.nBig == Some(BE(clientKey.n.value)) && clientKey.dBig.Some?
        && blob == ClientKeyLengthField(2048) + clientKey.n.value + clientKey.e.value && |blob| == 516
        && sock.sent == old(sock.sent) + old(sock.sendQueue) + blob && sock.sendQueue == []
    {
      var generated := GenerateClientKey(jwk, decode);
      if generated.Err? {
        return Err(generated.msg);
      }
      sock.PushBytes(generated.value.1);
      sock.Flush();
      r := generated;
    }

    /** Step 3: the client random goes out encrypted under the server's
        key, and the wait for the server's 2-byte length is taken. */
    method SendClientRandom(serverKey: RSA.RSACipher, random: nat -> byte, padding: nat -> byte, modPow: RSA.ModPow)
      returns (clientRandom: seq<byte>)
      requires Valid() && NoneIn(sockWaits)
      requires serverKey.nBig.Some? && serverKey.eBig.Some? && 128 <= serverKey.keyBytes <= 1024
      modifies sock, `sockWaits, `checkSock, `sockReject
      ensures Valid()
      ensures sock.data == old(sock.data) && sock.index == old(sock.index)
      ensures clientRandom == RandomBytes(random, 16)
      ensures var c := RSA.EncryptValue(serverKey.keyBytes, serverKey.eBig.value, serverKey.nBig.value, clientRandom, padding, modPow);
        && c.Some?
        && sock.sent == old(sock.sent) + old(sock.sendQueue) + Be16(serverKey.keyBytes) + c.value
        && sock.sendQueue == []
      ensures SlotState() == WaitSockSlots(old(SlotState()), |sock.Unread()|, 2)
    {
      var message;
      clientRandom, message := EncryptClientRandom(serverKey, random, padding, modPow);
      sock.PushBytes(message);
      sock.Flush();
      var _ := WaitSock(2);
    }
  
    /** Step 4 once 2 bytes are queued: the length must be the client key's
        256 bytes. The ciphertext is then shifted without waiting for it;
        the model takes what is queued, at most 256 bytes (the stale
        buffer bytes the source would read past the data are not kept).
        The result must be 16 bytes. */
    method ReadServerRandom(clientKey: RSA.RSACipher, modPow: RSA.ModPow) returns (r: Result<seq<byte>>)
      requires Valid() && |sock.Unread()| >= 2
      requires clientKey.keyBytes == 256 && clientKey.nBig.Some? && clientKey.dBig.Some?
      modifies sock
      ensures Valid() && sock.data == old(sock.data)
      ensures sock.sendQueue == old(sock.sendQueue) && sock.sent == old(sock.sent)
      ensures var u := old(sock.Unread());
        var encrypted := u[2..][..Min(256, |u| - 2)];
        var decrypted := RSA.DecryptValue(256, clientKey.dBig.value, clientKey.nBig.value, encrypted, modPow);
        && (U16(u[0], u[1]) != 256 ==> r == Err("RA2: wrong encrypted message length"))
        && (U16(u[0], u[1]) == 256 && (decrypted.None? || |decrypted.value| != 16) ==>
              r == Err("RA2: corrupted server encrypted random"))
        && (r.Ok? <==> U16(u[0], u[1]) == 256 && decrypted.Some? && |decrypted.value| == 16)
        && (r.Ok? ==> r.value == decrypted.value)
    {
      ghost var u := sock.Unread();
      var length := sock.Shift16();
      if length != 256 {
        return Err("RA2: wrong encrypted message length");
      }
      assert sock.Unread() == u[2..];
      var encrypted := sock.ShiftAtMost(256);
      var decrypted := clientKey.Decrypt(encrypted, modPow);
      if decrypted.None? || |decrypted.value| != 16 {
        return Err("RA2: corrupted server encrypted random");
      }
      r := Ok(decrypted.value);
    }

    /** `sQpushBytes(await cipher.makeMessage(m))` and `flush()`: one
        frame under the cipher's current counter goes out. */
    method SendMessage(cipher: RA2.RA2Cipher, m: seq<byte>)
      requires Valid() && cipher.Valid() && cipher.cipher.Some?
      modifies sock, cipher.counter
      ensures Valid() && cipher.Valid() && cipher.counter[..] == RA2.Increment(old(cipher.counter[..]))
      ensures sock.data == old(sock.data) && sock.index == old(sock.index) && sock.sendQueue == []
      ensures sock.sent == old(sock.sent) + old(sock.sendQueue) + RA2.Frame(cipher.Key(), old(cipher.counter[..]), m)
    {
      var message := cipher.MakeMessage(m);
      sock.PushBytes(message);
      sock.Flush();
    }

    /** Step 6, the client's half: its hash goes out as the first message
        under the client cipher, and the wait for the server's 38-byte
        reply is taken. */
    method SendClientHash(clientCipher: RA2.RA2Cipher, sha1: Sha1, serverBlob: seq<byte>, clientBlob: seq<byte>, serverKeyBytes: nat)
      requires Valid() && NoneIn(sockWaits) && clientCipher.Valid() && clientCipher.cipher.Some?
      requires |serverBlob| == 4 + 2 * serverKeyBytes && |clientBlob| == 516
      modifies sock, clientCipher.counter, `sockWaits, `checkSock, `sockReject
      ensures Valid()
      ensures clientCipher.Valid() && clientCipher.counter[..] == RA2.Increment(old(clientCipher.counter[..]))
      ensures sock.data == old(sock.data) && sock.index == old(sock.index) && sock.sendQueue == []
      ensures sock.sent == old(sock.sent) + old(sock.sendQueue) +
        RA2.Frame(clientCipher.Key(), old(clientCipher.counter[..]), sha1(clientBlob + serverBlob))
      ensures SlotState() == WaitSockSlots(old(SlotState()), |sock.Unread()|, 38)
    {
      var clientHash := HandshakeHash(sha1, clientBlob, serverBlob, serverKeyBytes, 256);
      SendMessage(clientCipher, clientHash);
      var _ := WaitSock(38);
    }

    /** Step 6, the server's half, once 38 bytes are queued: a 20-byte
        length, a message that authenticates under the server cipher, and
        a hash equal to the server's handshake hash computed here, the
        digest of the server's key blob followed by the client's. */
    method ReceiveServerHash(serverCipher: RA2.RA2Cipher, sha1: Sha1, serverBlob: seq<byte>, clientBlob: seq<byte>, serverKeyBytes: nat)
      returns (r: Result<()>)
      requires Valid() && |sock.Unread()| >= 38
      requires serverCipher.Valid() && serverCipher.cipher.Some?
      requires |serverBlob| == 4 + 2 * serverKeyBytes && |clientBlob| == 516
      modifies sock, serverCipher.counter
      ensures Valid() && serverCipher.Valid() && sock.data == old(sock.data)
      ensures sock.sendQueue == old(sock.sendQueue) && sock.sent == old(sock.sent)
      ensures var u := old(sock.Unread());
        && (U16(u[0], u[1]) != 20 ==>
              r == Err("RA2: wrong server hash") && serverCipher.counter[..] == old(serverCipher.counter[..]))
        && (U16(u[0], u[1]) == 20 ==>
              var got := RA2.Unframe(serverCipher.Key(), old(serverCipher.counter[..]), 20, u[2..38]);
              && serverCipher.counter[..] == RA2.Increment(old(serverCipher.counter[..]))
              && (got.None? ==> r == Err("RA2: failed to authenticate the message"))
              && (got.Some? && got.value != sha1(serverBlob + clientBlob) ==> r == Err("RA2: wrong server hash"))
              && (r.Ok? <==> got == Some(sha1(serverBlob + clientBlob))))
    {
      var serverHash := HandshakeHash(sha1, serverBlob, clientBlob, serverKeyBytes, serverKeyBytes);
      ghost var u := sock.Unread();
      var length := sock.Shift16();
      if length != 20 {
        return Err("RA2: wrong server hash");
      }
      var data := sock.ShiftBytes(36);
      assert data == u[2..38];
      var received := serverCipher.ReceiveMessage(20, data);
      if received.None? {
        return Err("RA2: failed to authenticate the message");
      }
      var same := SameHash(received.value, serverHash);
      if !same {
        return Err("RA2: wrong server hash");
      }
      r := Ok(());
    }

    /** The whole of step 6 on the receiving side: an accepted hash sets up
        the wait for the 19-byte subtype message. */
    method CheckServerHash(serverCipher: RA2.RA2Cipher, sha1: Sha1, serverBlob: seq<byte>, clientBlob: seq<byte>, serverKeyBytes: nat)
      returns (r: Result<()>)
      requires Valid() && NoneIn(sockWaits) && |sock.Unread()| >= 38
      requires serverCipher.Valid() && serverCipher.cipher.Some?
      requires |serverBlob| == 4 + 2 * serverKeyBytes && |clientBlob| == 516
      modifies sock, serverCipher.counter, `sockWaits, `checkSock, `sockReject
      ensures Valid() && serverCipher.Valid() && sock.data == old(sock.data)
      ensures sock.sendQueue == old(sock.sendQueue) && sock.sent == old(sock.sent)
      ensures var u := old(sock.Unread());
        r.Ok? <==> (U16(u[0], u[1]) == 20 &&
                    RA2.Unframe(serverCipher.Key(), old(serverCipher.counter[..]), 20, u[2..38]) == Some(sha1(serverBlob + clientBlob)))
      ensures r.Err? ==> SlotState() == old(SlotState())
      ensures r.Ok? ==> SlotState() == WaitSockSlots(old(SlotState()), |sock.Unread()|, 19)
    {
      r := ReceiveServerHash(serverCipher, sha1, serverBlob, clientBlob, serverKeyBytes);
      if r.Ok? {
        var _ := WaitSock(19);
      }
    }

    /** Step 7 once 19 bytes are queued: the 1-byte message under the
        server cipher that names the subtype. */
    method ReceiveSubtype(serverCipher: RA2.RA2Cipher) returns (r: Result<nat>)
      requires Valid() && |sock.Unread()| >= 19
      requires serverCipher.Valid() && serverCipher.cipher.Some?
      modifies sock, serverCipher.counter
      ensures Valid() && serverCipher.Valid() && sock.data == old(sock.data)
      ensures sock.sendQueue == old(sock.sendQueue) && sock.sent == old(sock.sent)
      ensures var u := old(sock.Unread());
        && (U16(u[0], u[1]) != 1 ==> r == Err("RA2: wrong subtype"))
        && (U16(u[0], u[1]) == 1 ==>
              var got := RA2.Unframe(serverCipher.Key(), old(serverCipher.counter[..]), 1, u[2..19]);
              && serverCipher.counter[..] == RA2.Increment(old(serverCipher.counter[..]))
              && (got.None? ==> r == Err("RA2: failed to authenticate the message"))
              && (got.Some? ==> r == Ok(got.value[0] as nat)))
    {
      ghost var u := sock.Unread();
      var length := sock.Shift16();
      if length != 1 {
        return Err("RA2: wrong subtype");
      }
      var data := sock.ShiftBytes(17);
      assert data == u[2..19];
      var received := serverCipher.ReceiveMessage(1, data);
      if received.None? {
        return Err("RA2: failed to authenticate the message");
      }
      r := Ok(received.value[0] as nat);
    }

    /** The rest of step 7 once the subtype is known: the credentials wait
        is taken before the subtype is checked, then credentials are asked
        for if missing; a subtype other than 1 or 2 fails after both. */
    method AwaitCredentials(subtype: nat, c: Credentials) returns (r: Result<nat>)
      requires Valid() && NoneIn(credentialWaits)
      modifies `credentialWaits, `checkCredentials, `credentialsReject, `events
      ensures Valid()
      ensures SlotState() == WaitCredentialsSlots(old(SlotState()), subtype, c)
      ensures events == old(events) + RequiredEvents(subtype, c)
      ensures subtype == 1 || subtype == 2 ==> r == Ok(subtype)
      ensures subtype != 1 && subtype != 2 ==> r == Err("RA2: wrong subtype")
    {
      var _ := WaitCredentials(subtype, c);
      DispatchRequired(subtype, c);
      if subtype != 1 && subtype != 2 {
        return Err("RA2: wrong subtype");
      }
      r := Ok(subtype);
    }

    /** The dispatch half of step 7: one `credentialsrequired` event for
        whatever the subtype needs and is missing. */
    method DispatchRequired(subtype: nat, c: Credentials)
      modifies `events
      ensures events == old(events) + RequiredEvents(subtype, c)
    {
      if subtype == 1 {
        if c.username.None? || c.password.None? {
          events := events + [CredentialsRequired(["username", "password"])];
        }
      } else if subtype == 2 {
        if c.password.None? {
          events := events + [CredentialsRequired(["password"])];
        }
      }
    }

    /** Step 8 once the credentials are there: both fields, encoded and
        cut to 255 bytes, go out as the next message under the client
        cipher. */
    method SendCredentials(clientCipher: RA2.RA2Cipher, subtype: nat, c: Credentials, encode: Utf8Encode)
      requires Valid() && clientCipher.Valid() && clientCipher.cipher.Some? && HasCredentials(subtype, c)
      modifies sock, clientCipher.counter
      ensures Valid() && clientCipher.Valid()
      ensures clientCipher.counter[..] == RA2.Increment(old(clientCipher.counter[..]))
      ensures sock.data == old(sock.data) && sock.index == old(sock.index) && sock.sendQueue == []
      ensures sock.sent == old(sock.sent) + old(sock.sendQueue) +
        RA2.Frame(clientCipher.Key(), old(clientCipher.counter[..]),
                  CredentialsMessage(UsernameField(subtype, c, encode), PasswordField(subtype, c, encode)))
    {
      var credentials := BuildCredentials(UsernameField(subtype, c, encode), PasswordField(subtype, c, encode));
      SendMessage(clientCipher, credentials);
    }
  }
}
