/** Encrypted requests after a ticket, and the encrypted-blob envelope.

    AES and the keyed hash are values of `Crypto`; all that is asked of them is
    stated in `Lawful`.  Padding, lengths and offsets are those of the handlers. */
module Sealing {
  import opened Results
  import opened Bytes
  import opened Blobs
  import opened Ticket

  datatype Crypto = Crypto(
    encrypt: (Bytes, Bytes, Bytes) -> Bytes,  // key, IV, whole blocks
    decrypt: (Bytes, Bytes, Bytes) -> Bytes)

  /** Decryption undoes encryption of whole blocks, and both keep their length. */
  predicate Inverts(c: Crypto, key: Bytes, iv: Bytes, m: Bytes) {
    |key| == 16 && |iv| == 16 && |m| % 16 == 0 ==>
      |c.encrypt(key, iv, m)| == |m| && c.decrypt(key, iv, c.encrypt(key, iv, m)) == m
  }

  /** Blocks are chained forwards, so decryption starts the same whatever follows. */
  predicate Chains(c: Crypto, key: Bytes, iv: Bytes, m: Bytes, more: Bytes) {
    |key| == 16 && |iv| == 16 && |m| % 16 == 0 && |more| % 16 == 0 ==>
      c.decrypt(key, iv, m) <= c.decrypt(key, iv, m + more)
  }

  ghost predicate Lawful(c: Crypto) {
    && (forall key: Bytes, iv: Bytes, m: Bytes :: Inverts(c, key, iv, m))
    && (forall key: Bytes, iv: Bytes, m: Bytes, more: Bytes :: Chains(c, key, iv, m, more))
  }

  /** There is a lawful cipher, if not a good one. */
  lemma LawfulIsPossible()
    ensures exists c :: Lawful(c)
  {
    var same := (key: Bytes, iv: Bytes, m: Bytes) => m;
    var c := Crypto(same, same);
    assert forall key: Bytes, iv: Bytes, m: Bytes :: Inverts(c, key, iv, m);
    assert forall key: Bytes, iv: Bytes, m: Bytes, more: Bytes :: Chains(c, key, iv, m, more);
    assert Lawful(c);
  }

  /** The padding of `aes_encrypt`: 1 to 16 bytes, each holding their number. */
  function Pad(m: Bytes): Bytes {
    m + Repeat(16 - |m| % 16, 16 - |m| % 16)
  }

  function AesEncrypt(c: Crypto, key: Bytes, iv: Bytes, message: Bytes): Result<Bytes> {
    if |key| != 16 || |iv| != 16 then Err(ValueError) else Ok(c.encrypt(key, iv, Pad(message)))
  }

  /** `aes_decrypt` leaves the padding in place. */
  function AesDecrypt(c: Crypto, key: Bytes, iv: Bytes, message: Bytes): Result<Bytes> {
    if |key| != 16 || |iv| != 16 || |message| % 16 != 0 then Err(ValueError) else Ok(c.decrypt(key, iv, message))
  }

  /** Both refuse any other key and IV, and decryption a broken block. */
  lemma CipherRefusesIff(c: Crypto, key: Bytes, iv: Bytes, message: Bytes)
    ensures AesEncrypt(c, key, iv, message) == Err(ValueError) <==> !(|key| == |iv| == 16)
    ensures AesEncrypt(c, key, iv, message).Err? ==> AesDecrypt(c, key, iv, message) == Err(ValueError)
    ensures |key| == |iv| == 16 ==> (AesDecrypt(c, key, iv, message).Ok? <==> exists k: nat :: |message| == 16 * k)
  {
    assert |message| == 16 * (|message| / 16) + |message| % 16;
  }

  lemma Padded(m: Bytes)
    ensures |Pad(m)| % 16 == 0 && |m| < |Pad(m)| <= |m| + 16 && m <= Pad(m)
    ensures var p := |Pad(m)| - |m|; forall i :: |m| <= i < |Pad(m)| ==> Pad(m)[i] == p
  {
  }

  lemma DecryptEncrypted(c: Crypto, key: Bytes, iv: Bytes, m: Bytes)
    requires Lawful(c) && |key| == 16 && |iv| == 16
    ensures AesEncrypt(c, key, iv, m).Ok? && |AesEncrypt(c, key, iv, m).value| == |Pad(m)|
    ensures AesDecrypt(c, key, iv, AesEncrypt(c, key, iv, m).value) == Ok(Pad(m))
  {
    Padded(m);
    assert Inverts(c, key, iv, Pad(m));
  }

  // ----- The request after the ticket -----

  /** A client's request: the name twice, eight bytes of time, and a body. */
  datatype Request = Request(name: Bytes, time: Bytes, body: Bytes)

  function Plaintext(r: Request): Result<Bytes> {
    var n :- PackLE(|r.name|, 2);
    Ok(n + r.name + n + r.name + r.time + r.body)
  }

  /** IV, plaintext and ciphertext lengths, ciphertext. */
  function SealRequest(c: Crypto, key: Bytes, iv: Bytes, r: Request): Result<Bytes> {
    var plain :- Plaintext(r);
    var cipher :- AesEncrypt(c, key, iv, plain);
    var plainLen :- PackBE(|plain|, 2);
    var cipherLen :- PackBE(|cipher|, 2);
    Ok(iv + plainLen + cipherLen + cipher)
  }

  /** Where the body starts, by the first name's length alone. */
  function BodyOffset(decoded: Bytes): Result<nat> {
    var n :- UnpackLE(Slice(decoded, 0, 2), 2);
    Ok((2 + n) * 2 + 8)
  }

  /** `subscribe`: the blob is as long as the low half of its own size field says. */
  function SubscribeBlob(decoded: Bytes): Result<Bytes> {
    var header :- BodyOffset(decoded);
    var blobLen :- UnpackLE(Slice(decoded, header + 2, header + 4), 2);
    Ok(Slice(decoded, header, header + blobLen))
  }

  /** `unsubscribe`: four bytes up to the padding, whose last byte is its length. */
  function UnsubscribeId(decoded: Bytes): Result<nat> {
    var header :- BodyOffset(decoded);
    var padding :- UnpackBE(if decoded == [] then [] else decoded[|decoded| - 1..], 1);
    UnpackLE(SliceEnd(decoded, header, padding), 4)
  }

  /** The name and the dictionary `subscribe` works with. */
  function Subscribe(c: Crypto, key: Bytes, command: Bytes): Result<(Bytes, Dict)> {
    var cmd :- ReadCommandHex(command);
    var decoded :- AesDecrypt(c, key, cmd.iv, cmd.cipher);
    var blob :- SubscribeBlob(decoded);
    var dict :- Unserialize(blob);
    Ok((cmd.username, dict))
  }

  /** The name and the package `unsubscribe` works with. */
  function Unsubscribe(c: Crypto, key: Bytes, command: Bytes): Result<(Bytes, nat)> {
    var cmd :- ReadCommandHex(command);
    var decoded :- AesDecrypt(c, key, cmd.iv, cmd.cipher);
    var id :- UnsubscribeId(decoded);
    Ok((cmd.username, id))
  }

  /** A request can be sent if and only if its padded plaintext has a two-byte length. */
  lemma SealableIff(c: Crypto, key: Bytes, iv: Bytes, r: Request)
    requires Lawful(c) && |key| == 16 && |iv| == 16
    ensures SealRequest(c, key, iv, r).Ok? <==> 4 + 2 * |r.name| + |r.time| + |r.body| < 65520
  {
    Widths();
    var length := 4 + 2 * |r.name| + |r.time| + |r.body|;
    if Plaintext(r).Ok? {
      var plain := Plaintext(r).value;
      assert |plain| == length;
      DecryptEncrypted(c, key, iv, plain);
      Padded(plain);
      hide Pad, AesEncrypt, Pow, Plaintext, Lawful;
    }
  }

  lemma SealedForm(c: Crypto, key: Bytes, iv: Bytes, r: Request)
    requires SealRequest(c, key, iv, r).Ok?
    ensures Plaintext(r).Ok? && AesEncrypt(c, key, iv, Plaintext(r).value).Ok?
    ensures var plain := Plaintext(r).value; var cipher := AesEncrypt(c, key, iv, plain).value;
      |cipher| < Pow(256, 2) && SealRequest(c, key, iv, r).value == iv + BE(|plain|, 2) + BE(|cipher|, 2) + cipher
  {
    hide Plaintext, AesEncrypt, BE;
  }

  /** The sealed part read back: IV and ciphertext, then the padded plaintext. */
  lemma SealedRead(c: Crypto, key: Bytes, iv: Bytes, r: Request)
    requires Lawful(c) && |key| == 16 && |iv| == 16 && SealRequest(c, key, iv, r).Ok?
    ensures Plaintext(r).Ok?
    ensures var cipher := AesEncrypt(c, key, iv, Plaintext(r).value).value;
      && ReadSealed(SealRequest(c, key, iv, r).value) == Ok((iv, cipher))
      && AesDecrypt(c, key, iv, cipher) == Ok(Pad(Plaintext(r).value))
  {
    hide Lawful, Plaintext, AesEncrypt, AesDecrypt, Pad, ReadSealed, SealRequest, BE, FromBE;
    SealedForm(c, key, iv, r);
    var plain := Plaintext(r).value;
    DecryptEncrypted(c, key, iv, plain);
    var cipher := AesEncrypt(c, key, iv, plain).value;
    BERoundTrip(|cipher|, 2);
    SealedFields(iv, BE(|plain|, 2), BE(|cipher|, 2), cipher);
  }

  /** The two-byte length of the ciphertext bounds the body as well. */
  lemma SealedBodyIsShort(c: Crypto, key: Bytes, iv: Bytes, r: Request)
    requires Lawful(c) && |key| == 16 && |iv| == 16 && SealRequest(c, key, iv, r).Ok?
    ensures |r.body| < 0x1_0000
  {
    SealedForm(c, key, iv, r);
    DecryptEncrypted(c, key, iv, Plaintext(r).value);
    Padded(Plaintext(r).value);
    Widths();
    hide SealRequest, AesEncrypt, AesDecrypt, Lawful, Pad, Pow;
  }

  lemma SealedFields(iv: Bytes, plainLen: Bytes, cipherLen: Bytes, cipher: Bytes)
    requires |iv| == 16 && |plainLen| == 2 && |cipherLen| == 2 && FromBE(cipherLen) == |cipher|
    ensures ReadSealed(iv + plainLen + cipherLen + cipher) == Ok((iv, cipher))
  {
    hide FromBE;
    var post := iv + plainLen + cipherLen + cipher;
    assert Slice(post, 18, 20) == cipherLen;
    assert Slice(post, 0, 16) == iv;
    assert Slice(post, 20, 20 + |cipher|) == cipher;
  }

  /** The padded plaintext: the body stands at the offset the handlers compute, and
      nothing but padding follows it. */
  lemma BodyAt(r: Request)
    requires |r.time| == 8 && Plaintext(r).Ok?
    ensures var d := Pad(Plaintext(r).value); var k := (2 + |r.name|) * 2 + 8;
      && BodyOffset(d) == Ok(k)
      && k + |r.body| < |d| <= k + |r.body| + 16
      && d[k..k + |r.body|] == r.body
      && forall i :: k + |r.body| <= i < |d| ==> d[i] == |d| - k - |r.body|
  {
    var plain := Plaintext(r).value;
    var d := Pad(plain);
    var n := LE(|r.name|, 2);
    LERoundTrip(|r.name|, 2);
    Padded(plain);
    BodyFields(n, r.name, r.time, r.body, d);
  }

  lemma BodyFields(n: Bytes, name: Bytes, time: Bytes, body: Bytes, d: Bytes)
    requires |n| == 2 && |time| == 8 && n + name + n + name + time + body <= d
    ensures var k := (2 + |name|) * 2 + 8;
      k + |body| <= |d| && Slice(d, 0, 2) == n && d[k..k + |body|] == body
  {
    var plain := n + name + n + name + time + body;
    assert d[..|plain|] == plain;
    assert Slice(d, 0, 2) == plain[..2];
    var k := (2 + |name|) * 2 + 8;
    assert d[k..k + |body|] == plain[k..];
  }

  function Word(lo: int, hi: int): int {
    lo + 256 * hi
  }

  lemma FromLETwo(b: Bytes)
    requires |b| == 2
    ensures FromLE(b) == Word(b[0], b[1])
  {
    assert FromLE(b[1..]) == b[1] + 256 * FromLE(b[1..][1..]);
  }

  /** `subscribe` takes exactly the body from the plaintext if and only if bytes 2
      and 3 of the body hold its length. */
  lemma SubscribeBlobIff(r: Request)
    requires |r.time| == 8 && Plaintext(r).Ok?
    ensures SubscribeBlob(Pad(Plaintext(r).value)) == Ok(r.body) <==>
      |r.body| >= 4 && FromLE(r.body[2..4]) == |r.body|
  {
    hide Plaintext, Pad, FromLE;
    BodyAt(r);
    var d := Pad(Plaintext(r).value);
    var k := (2 + |r.name|) * 2 + 8;
    var size := Slice(d, k + 2, k + 4);
    if |r.body| >= 4 {
      assert size == d[k..k + |r.body|][2..4] == r.body[2..4];
    } else if |size| == 2 {
      FromLETwo(size);
      assert size[1] == d[k + 3] == |d| - k - |r.body|;
      assert FromLE(size) >= 256;
    }
    if |size| == 2 {
      var n := FromLE(size);
      assert SubscribeBlob(d) == Ok(Slice(d, k, k + n));
      assert n < |r.body| ==> |Slice(d, k, k + n)| < |r.body|;
      assert n > |r.body| ==> |Slice(d, k, k + n)| > |r.body|;
    }
  }

  lemma LELow(n: nat)
    ensures LE(n, 4)[..2] == [n % 256, n / 256 % 256]
  {
    assert LE(n, 4) == [n % 256] + LE(n / 256, 3);
    assert LE(n / 256, 3) == [n / 256 % 256] + LE(n / 256 / 256, 2);
  }

  lemma BlobSizeField(d: Dict)
    requires Serialize(d).Some?
    ensures Body(d).Some? && SlackOf(d).Some?
    ensures var b, total := Serialize(d).value, |Body(d).value| + 10;
      |b| == total + |SlackOf(d).value| && FromLE(b[2..4]) == total % 0x1_0000
  {
    SerializedForm(d);
    hide *;
    var b := Serialize(d).value;
    var body, slack := Body(d).value, SlackOf(d).value;
    var total := |body| + 10;
    LowHalfAt(b, LE(total, 4), LE(|slack|, 4), body, slack);
    LELow(total);
    FromLETwo(b[2..4]);
    LowTwoBytes(total);
  }

  lemma LowTwoBytes(n: nat)
    ensures Word(n % 256, n / 256 % 256) == n % 0x1_0000
  {
  }

  lemma LowHalfAt(b: Bytes, size: Bytes, slackSize: Bytes, body: Bytes, slack: Bytes)
    requires |size| == |slackSize| == 4 && b == MAGIC + size + slackSize + body + slack
    ensures |b| == 10 + |body| + |slack| && b[2..4] == size[..2]
  {
    assert b == MAGIC + (size + slackSize + body + slack);
    assert |MAGIC| == 2;
    hide MAGIC;
    assert b[2..4] == (size + slackSize + body + slack)[..2] == size[..2];
  }

  /** A serialised blob carries its own length there exactly when it has no slack
      and is shorter than 2^16 bytes. */
  lemma BlobCarriesLengthIff(d: Dict)
    requires Serialize(d).Some?
    ensures var b := Serialize(d).value;
      |b| >= 4 && (FromLE(b[2..4]) == |b| <==> SlackOf(d) == Some([]) && |b| < 0x1_0000)
  {
    hide *;
    BlobSizeField(d);
    LowHalf(|Body(d).value| + 10, |SlackOf(d).value|);
    assert |SlackOf(d).value| == 0 <==> SlackOf(d).value == [];
  }

  lemma LowHalf(total: nat, slack: nat)
    ensures total % 0x1_0000 == total + slack <==> slack == 0 && total + slack < 0x1_0000
  {
  }

  /** The package id comes back exactly when the body has four bytes. */
  lemma UnsubscribeIdRead(r: Request)
    requires |r.time| == 8 && Plaintext(r).Ok?
    ensures UnsubscribeId(Pad(Plaintext(r).value)) ==
      if |r.body| == 4 then Ok(FromLE(r.body)) else Err(StructError)
  {
    hide Plaintext, Pad, FromLE, FromBE;
    BodyAt(r);
    var d := Pad(Plaintext(r).value);
    var k := (2 + |r.name|) * 2 + 8;
    var p := |d| - k - |r.body|;
    var last := d[|d| - 1..];
    assert last == [p];
    FromBEOne(p);
    assert SliceEnd(d, k, p) == r.body;
  }

  /** The blob is cut short where it does not carry its length. */
  lemma SubscribeBlobCut(r: Request, d: Dict)
    requires |r.time| == 8 && Plaintext(r).Ok? && Serialize(d) == Some(r.body)
    requires |r.body| >= 4 && FromLE(r.body[2..4]) != |r.body|
    ensures var n := FromLE(r.body[2..4]);
      n < |r.body| && SubscribeBlob(Pad(Plaintext(r).value)) == Ok(r.body[..n])
  {
    hide *;
    BlobSizeField(d);
    BodyAt(r);
    assert FromLE(r.body[2..4]) <= |r.body|;
    BlobTaken(Pad(Plaintext(r).value), (2 + |r.name|) * 2 + 8, r.body);
  }

  lemma BlobTaken(x: Bytes, k: nat, body: Bytes)
    requires BodyOffset(x) == Ok(k) && k + |body| <= |x| && x[k..k + |body|] == body
    requires |body| >= 4 && FromLE(body[2..4]) <= |body|
    ensures SubscribeBlob(x) == Ok(body[..FromLE(body[2..4])])
  {
    hide FromLE;
    var n := FromLE(body[2..4]);
    SliceOfPart(x, k, body, 2, 4);
    SliceOfPart(x, k, body, 0, n);
    assert |body[2..4]| == 2;
    hide Slice;
    assert body[0..n] == body[..n];
  }

  lemma SliceOfPart(x: Bytes, k: nat, part: Bytes, i: nat, j: nat)
    requires k + |part| <= |x| && x[k..k + |part|] == part && i <= j <= |part|
    ensures Slice(x, k + i, k + j) == part[i..j]
  {
    forall t | i <= t < j ensures x[k + t] == part[t] {
      assert x[k..k + |part|][t] == x[k + t];
    }
    assert Slice(x, k + i, k + j) == x[k + i..k + j];
  }

  /** From ticket and sealed request to dictionary, for every lawful cipher: what
      `subscribe` works with equals what the client wrote if and only if no value
      starts like a blob, no slack is empty, and the blob has none of its own. */
  lemma SubscribeEndToEndIff(c: Crypto, key: Bytes, g: Grant, cmd: Byte, iv: Bytes, r: Request, d: Dict)
    requires Lawful(c) && |key| == 16 && |iv| == 16 && |r.time| == 8
    requires WellFormed(g) && |g.username| <= 37
    requires Keyed(d) && Serialize(d) == Some(r.body) && SealRequest(c, key, iv, r).Ok?
    ensures var p := Presented(g, cmd, SealRequest(c, key, iv, r).value);
      && p.Ok?
      && var s := Subscribe(c, key, p.value);
      && (s.Ok? ==> s.value.0 == g.username)
      && ((s.Ok? && AsMap(s.value.1) == AsMap(d)) <==>
          Unambiguous(d) && Full(d) && SlackOf(d) == Some([]))
  {
    var post := SealRequest(c, key, iv, r).value;
    TicketRoundTrip(g, cmd, post);
    SealedRead(c, key, iv, r);
    SubscribeBlobIff(r);
    BlobCarriesLengthIff(d);
    BlobRoundTripIff(d);
    SealedBodyIsShort(c, key, iv, r);
    hide Lawful, Presented, SealRequest, ReadSealed, AesEncrypt, AesDecrypt, Plaintext, Pad, SubscribeBlob;
    hide Unserialize, FromLE, Serialize, ReadCommandHex, WellFormed, Keyed, Unambiguous, Full, SlackOf, AsMap;
    if FromLE(r.body[2..4]) != |r.body| {
      SubscribeBlobCut(r, d);
      CutBlobRefused(d, FromLE(r.body[2..4]));
    }
  }

  /** The same for the package id of an unsubscribe request. */
  lemma UnsubscribeEndToEnd(c: Crypto, key: Bytes, g: Grant, cmd: Byte, iv: Bytes, r: Request, id: nat)
    requires Lawful(c) && |key| == 16 && |iv| == 16 && |r.time| == 8
    requires WellFormed(g) && |g.username| <= 37
    requires PackLE(id, 4) == Ok(r.body) && SealRequest(c, key, iv, r).Ok?
    ensures var p := Presented(g, cmd, SealRequest(c, key, iv, r).value);
      p.Ok? && Unsubscribe(c, key, p.value) == Ok((g.username, id))
  {
    LERoundTrip(id, 4);
    hide Lawful, Presented, SealRequest, ReadSealed, AesEncrypt, AesDecrypt, Plaintext, Pad, UnsubscribeId;
    hide FromLE, ReadCommandHex, WellFormed;
    var post := SealRequest(c, key, iv, r).value;
    TicketRoundTrip(g, cmd, post);
    SealedRead(c, key, iv, r);
    UnsubscribeIdRead(r);
  }

  // ----- The encrypted-blob envelope -----

  /** Length, magic, length, zero, then plaintext length, IV, ciphertext, signature. */
  function Envelope(c: Crypto, key: Bytes, iv: Bytes, plain: Bytes, signature: Bytes): Result<Bytes> {
    var plainLen :- PackLE(|plain|, 4);
    var cipher :- AesEncrypt(c, key, iv, plain);
    var inner := plainLen + iv + cipher;
    var total := 10 + |inner| + 20;
    var big :- PackBE(total, 4);
    var little :- PackLE(total, 4);
    Ok(big + [0x01, 0x45] + (little + LE(0, 4)) + inner + signature)
  }

  /** `create_user` on a reply: two length bytes and 128 bytes of wrapped key come
      first; `unwrap` is the RSA step that gives the AES key. */
  function OpenReply(c: Crypto, unwrap: Bytes -> Bytes, reply: Bytes): Result<Bytes> {
    var _ :- UnpackBE(Slice(reply, 0, 2), 2);
    var datalength :- UnpackBE(Slice(reply, 130, 134), 4);
    OpenBlob(c, unwrap(Slice(reply, 2, 130)), Slice(reply, 144, 144 + datalength - 10))
  }

  /** The older handlers take everything after the header instead. */
  function OpenWholeReply(c: Crypto, unwrap: Bytes -> Bytes, reply: Bytes): Result<Bytes> {
    var _ :- UnpackBE(Slice(reply, 130, 134), 4);
    OpenBlob(c, unwrap(Slice(reply, 2, 130)), From(reply, 144))
  }

  function OpenBlob(c: Crypto, key: Bytes, blob: Bytes): Result<Bytes> {
    var plaintextLength :- UnpackLE(Slice(blob, 0, 4), 4);
    var plaintext :- AesDecrypt(c, key, Slice(blob, 4, 20), SliceEnd(blob, 20, 20));
    Ok(Slice(plaintext, 0, plaintextLength))
  }

  lemma BlobOpened(c: Crypto, key: Bytes, iv: Bytes, plain: Bytes, plainLen: Bytes, signature: Bytes)
    requires Lawful(c) && |key| == 16 && |iv| == 16 && |signature| == 20
    requires |plainLen| == 4 && FromLE(plainLen) == |plain|
    ensures OpenBlob(c, key, plainLen + iv + AesEncrypt(c, key, iv, plain).value + signature) == Ok(plain)
  {
    hide FromLE, AesEncrypt, AesDecrypt, Pad, Lawful;
    DecryptEncrypted(c, key, iv, plain);
    Padded(plain);
    var cipher := AesEncrypt(c, key, iv, plain).value;
    var blob := plainLen + iv + cipher + signature;
    assert Slice(blob, 0, 4) == plainLen;
    assert Slice(blob, 4, 20) == iv;
    assert SliceEnd(blob, 20, 20) == cipher;
    assert Slice(Pad(plain), 0, |plain|) == plain;
  }

  /** Where the parts of an envelope stand after a 130-byte prefix. */
  lemma EnvelopeFields(prefix: Bytes, big: Bytes, little: Bytes, inner: Bytes, rest: Bytes, n: nat)
    requires |prefix| == 130 && |big| == 4 && |little| == 8 && n == 10 + |inner|
    ensures var reply := prefix + (big + [0x01, 0x45] + little + inner) + rest;
      && Slice(reply, 0, 2) == prefix[..2] && Slice(reply, 2, 130) == prefix[2..]
      && Slice(reply, 130, 134) == big
      && Slice(reply, 144, 144 + n - 10) == inner
      && From(reply, 144) == inner + rest
  {
  }

  lemma EnvelopeForm(c: Crypto, key: Bytes, iv: Bytes, plain: Bytes, signature: Bytes)
    requires Envelope(c, key, iv, plain, signature).Ok?
    ensures AesEncrypt(c, key, iv, plain).Ok? && |plain| < Pow(256, 4)
    ensures var inner := LE(|plain|, 4) + iv + AesEncrypt(c, key, iv, plain).value;
      var total := 10 + |inner| + 20;
      && total < Pow(256, 4)
      && Envelope(c, key, iv, plain, signature).value
         == BE(total, 4) + [0x01, 0x45] + (LE(total, 4) + LE(0, 4)) + (inner + signature)
  {
    hide AesEncrypt, BE, LE, Pow;
    var inner := LE(|plain|, 4) + iv + AesEncrypt(c, key, iv, plain).value;
    var total := 10 + |inner| + 20;
    var head := BE(total, 4) + [0x01, 0x45] + (LE(total, 4) + LE(0, 4));
    assert head + inner + signature == head + (inner + signature);
  }

  /** Both readers reduced to the part after the header. */
  lemma ReplyRead(
      c: Crypto, unwrap: Bytes -> Bytes, prefix: Bytes, iv: Bytes, plain: Bytes, signature: Bytes, rest: Bytes)
    requires |prefix| == 130 && |signature| == 20
    requires Envelope(c, unwrap(prefix[2..]), iv, plain, signature).Ok?
    ensures var key := unwrap(prefix[2..]);
      var e := Envelope(c, key, iv, plain, signature).value;
      var inner := LE(|plain|, 4) + iv + AesEncrypt(c, key, iv, plain).value;
      && FromBE(e[..4]) == |e| - 4
      && OpenReply(c, unwrap, prefix + e + rest) == OpenBlob(c, key, inner + signature)
      && OpenWholeReply(c, unwrap, prefix + e + rest) == OpenBlob(c, key, inner + signature + rest)
  {
    hide Envelope, AesEncrypt, OpenBlob, BE, LE, FromBE, Pow;
    var key := unwrap(prefix[2..]);
    EnvelopeForm(c, key, iv, plain, signature);
    var e := Envelope(c, key, iv, plain, signature).value;
    var inner := LE(|plain|, 4) + iv + AesEncrypt(c, key, iv, plain).value;
    var total := 10 + |inner| + 20;
    BERoundTrip(total, 4);
    EnvelopeFields(prefix, BE(total, 4), LE(total, 4) + LE(0, 4), inner + signature, rest, total);
    assert e[..4] == BE(total, 4);
  }

  lemma EnvelopeFits(c: Crypto, key: Bytes, iv: Bytes, plain: Bytes, signature: Bytes)
    requires Lawful(c) && |key| == 16 && |iv| == 16
    ensures Envelope(c, key, iv, plain, signature).Ok? <==> |Pad(plain)| + 50 < 0x1_0000_0000
  {
    DecryptEncrypted(c, key, iv, plain);
    Padded(plain);
    Widths();
    hide Lawful, AesEncrypt, BE, LE, Pad;
  }

  /** Every plaintext that leaves the length field room has an envelope; the field
      counts the bytes after it, and the reader gets back the exact plaintext,
      whatever bytes follow the envelope. */
  lemma EnvelopeRoundTrip(
      c: Crypto, unwrap: Bytes -> Bytes, prefix: Bytes, iv: Bytes, plain: Bytes, signature: Bytes, rest: Bytes)
    requires Lawful(c) && |prefix| == 130 && |unwrap(prefix[2..])| == 16 && |iv| == 16 && |signature| == 20
    ensures var e := Envelope(c, unwrap(prefix[2..]), iv, plain, signature);
      && (e.Ok? <==> |Pad(plain)| + 50 < 0x1_0000_0000)
      && (e.Ok? ==> FromBE(e.value[..4]) == |e.value| - 4 && OpenReply(c, unwrap, prefix + e.value + rest) == Ok(plain))
  {
    EnvelopeFits(c, unwrap(prefix[2..]), iv, plain, signature);
    hide Pad, Lawful, Envelope, AesEncrypt, OpenReply, OpenBlob, LE, FromLE, FromBE, Pow;
    var key := unwrap(prefix[2..]);
    if Envelope(c, key, iv, plain, signature).Ok? {
      EnvelopeForm(c, key, iv, plain, signature);
      ReplyRead(c, unwrap, prefix, iv, plain, signature, rest);
      LERoundTrip(|plain|, 4);
      BlobOpened(c, key, iv, plain, LE(|plain|, 4), signature);
    }
  }

  /** The blob's parts, with anything after them: the ciphertext runs on. */
  lemma LongBlobFields(c: Crypto, key: Bytes, head: Bytes, iv: Bytes, cipher: Bytes, signature: Bytes, rest: Bytes)
    requires |head| == 4 && |iv| == 16 && |signature| == 20
    ensures var more := (signature + rest)[..|rest|];
      OpenBlob(c, key, head + iv + cipher + signature + rest) ==
        match AesDecrypt(c, key, iv, cipher + more)
        case Ok(plaintext) => Ok(Slice(plaintext, 0, FromLE(head)))
        case Err(e) => Err(e)
  {
    hide AesDecrypt, FromLE;
    var blob := head + iv + cipher + signature + rest;
    assert Slice(blob, 0, 4) == head;
    assert Slice(blob, 4, 20) == iv;
    assert SliceEnd(blob, 20, 20) == cipher + (signature + rest)[..|rest|];
  }

  /** Blocks after the padded plaintext do not change what is read of it. */
  lemma DecryptLonger(c: Crypto, key: Bytes, iv: Bytes, plain: Bytes, more: Bytes)
    requires Lawful(c) && |key| == 16 && |iv| == 16
    ensures var r := AesDecrypt(c, key, iv, AesEncrypt(c, key, iv, plain).value + more);
      if |more| % 16 == 0 then r.Ok? && Slice(r.value, 0, |plain|) == plain else r == Err(ValueError)
  {
    DecryptEncrypted(c, key, iv, plain);
    Padded(plain);
    var cipher := AesEncrypt(c, key, iv, plain).value;
    hide AesEncrypt, Pad;
    if |more| % 16 == 0 {
      assert Chains(c, key, iv, cipher, more);
      assert plain <= c.decrypt(key, iv, cipher + more);
    }
  }

  /** Without the cut at the length field, the bytes that follow are taken for
      ciphertext: the plaintext is read if and only if they fill whole blocks. */
  lemma WholeReplyIff(
      c: Crypto, unwrap: Bytes -> Bytes, prefix: Bytes, iv: Bytes, plain: Bytes, signature: Bytes, rest: Bytes)
    requires Lawful(c) && |prefix| == 130 && |unwrap(prefix[2..])| == 16 && |iv| == 16 && |signature| == 20
    requires Envelope(c, unwrap(prefix[2..]), iv, plain, signature).Ok?
    ensures var e := Envelope(c, unwrap(prefix[2..]), iv, plain, signature).value;
      OpenWholeReply(c, unwrap, prefix + e + rest) == if |rest| % 16 == 0 then Ok(plain) else Err(ValueError)
  {
    var key := unwrap(prefix[2..]);
    EnvelopeForm(c, key, iv, plain, signature);
    ReplyRead(c, unwrap, prefix, iv, plain, signature, rest);
    LERoundTrip(|plain|, 4);
    var more := (signature + rest)[..|rest|];
    LongBlobFields(c, key, LE(|plain|, 4), iv, AesEncrypt(c, key, iv, plain).value, signature, rest);
    DecryptLonger(c, key, iv, plain, more);
    hide *;
  }
}
