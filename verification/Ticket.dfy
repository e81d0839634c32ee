/** The Steam2 login ticket: how `login` lays it out, and the fixed offsets at which
    the other handlers read it back from a client's command. */
module Ticket {
  import opened Results
  import opened Bytes

  // ----- Hexadecimal text (`binascii`) -----

  /** A hexadecimal digit, by its value. */
  type Nibble = n: int | 0 <= n < 16
  type Hex = seq<Nibble>

  /** `b2a_hex` */
  function HexOf(b: Bytes): (h: Hex)
    ensures |h| == 2 * |b|
  {
    seq(2 * |b|, i requires 0 <= i < 2 * |b| => if i % 2 == 0 then b[i / 2] / 16 else b[i / 2] % 16)
  }

  function ByteOf(hi: int, lo: int): Byte
    requires 0 <= hi < 16 && 0 <= lo < 16
  {
    16 * hi + lo
  }

  /** `a2b_hex` */
  function Unhex(h: Hex): Result<Bytes> {
    if |h| % 2 != 0 then Err(ValueError)
    else Ok(seq(|h| / 2, i requires 0 <= i < |h| / 2 => ByteOf(h[2 * i], h[2 * i + 1])))
  }

  /** `int(h, 16)` */
  function HexInt(h: Hex): (r: Result<int>)
    ensures r.Ok? ==> r.value >= 0
  {
    ValueRange(16, h);
    if h == [] then Err(ValueError) else Ok(Value(16, h))
  }

  /** A digit too many is refused, and everything else read comes from writing it. */
  lemma UnhexIff(h: Hex)
    ensures Unhex(h).Ok? <==> exists b :: h == HexOf(b)
    ensures Unhex(h).Ok? ==> h == HexOf(Unhex(h).value)
    ensures Unhex(h).Err? ==> Unhex(h) == Err(ValueError)
  {
    if Unhex(h).Ok? {
      var b := Unhex(h).value;
      forall i | 0 <= i < |h| ensures HexOf(b)[i] == h[i] {
        Halves(i);
        assert b[i / 2] == ByteOf(h[2 * (i / 2)], h[2 * (i / 2) + 1]);
        Nibbles(h[2 * (i / 2)], h[2 * (i / 2) + 1]);
      }
      assert h == HexOf(b);
    }
  }

  lemma Halves(i: nat)
    ensures i % 2 == 0 ==> i == 2 * (i / 2)
    ensures i % 2 != 0 ==> i == 2 * (i / 2) + 1
  {
  }

  lemma Nibbles(hi: Nibble, lo: Nibble)
    ensures ByteOf(hi, lo) / 16 == hi && ByteOf(hi, lo) % 16 == lo
  {
  }

  lemma UnhexHex(b: Bytes)
    ensures Unhex(HexOf(b)) == Ok(b)
  {
    var r := Unhex(HexOf(b)).value;
    forall i | 0 <= i < |b| ensures r[i] == b[i] {
      assert HexOf(b)[2 * i] == b[i] / 16 && HexOf(b)[2 * i + 1] == b[i] % 16;
    }
    assert r == b;
  }

  /** An even slice of the text is the text of a slice. */
  lemma HexSlice(b: Bytes, i: nat, j: nat)
    ensures Slice(HexOf(b), 2 * i, 2 * j) == HexOf(Slice(b, i, j))
  {
    var h := Min(j, |b|);
    HexRange(b, Min(i, h), h);
  }

  lemma HexRange(b: Bytes, l: nat, h: nat)
    requires l <= h <= |b|
    ensures HexOf(b)[2 * l..2 * h] == HexOf(b[l..h])
  {
    forall k | 0 <= k < 2 * (h - l)
      ensures HexOf(b)[2 * l + k] == HexOf(b[l..h])[k]
    {
      assert (2 * l + k) / 2 == l + k / 2 && (2 * l + k) % 2 == k % 2;
    }
  }

  lemma HexFrom(b: Bytes, i: nat)
    ensures From(HexOf(b), 2 * i) == HexOf(From(b, i))
  {
    HexRange(b, Min(i, |b|), |b|);
  }

  lemma {:induction false} HexValue(b: Bytes)
    ensures Value(16, HexOf(b)) == FromBE(b)
  {
    if |b| > 0 {
      var n := |b| - 1;
      var h := HexOf(b);
      HexValue(b[..n]);
      assert h[..2 * n] == HexOf(b[..n]);
      assert h[..2 * n + 1][..2 * n] == h[..2 * n];
      assert Value(16, h[..2 * n + 1]) == 16 * Value(16, h[..2 * n]) + b[n] / 16;
    }
  }

  lemma HexIntOf(b: Bytes)
    ensures HexInt(HexOf(b)) == IntOf(b)
  {
    HexValue(b);
  }

  // ----- Reading a command -----

  /** What every ticket-bearing handler takes from its command: the user name, the
      client's IV, and the IV and ciphertext that follow the ticket. */
  datatype Command = Command(username: Bytes, userIV: Bytes, iv: Bytes, cipher: Bytes)

  /** A big-endian integer in a slice that may be short, but not empty. */
  function IntOf(b: Bytes): Result<int> {
    if b == [] then Err(ValueError) else Ok(FromBE(b))
  }

  function ReadUserIV(command: Bytes): Result<Bytes> {
    var data1Len :- IntOf(Slice(command, 5, 7));
    Ok(Slice(command, 7 + data1Len, 7 + data1Len + 16))
  }

  function ReadUsername(command: Bytes): Result<Bytes> {
    var n :- IntOf(Slice(command, 157, 159));
    Ok(Slice(command, 7, 7 + n))
  }

  function ReadPostTicket(command: Bytes): Result<Bytes> {
    var n :- IntOf(Slice(command, 1, 3));
    Ok(From(command, 3 + n))
  }

  /** IV, two lengths, ciphertext: the part after the ticket. */
  function ReadSealed(post: Bytes): Result<(Bytes, Bytes)> {
    var n :- IntOf(Slice(post, 18, 20));
    Ok((Slice(post, 0, 16), Slice(post, 20, 20 + n)))
  }

  /** The same reading in bytes. */
  function ReadCommand(command: Bytes): Result<Command> {
    var userIV :- ReadUserIV(command);
    var username :- ReadUsername(command);
    var post :- ReadPostTicket(command);
    var (iv, cipher) :- ReadSealed(post);
    Ok(Command(username, userIV, iv, cipher))
  }

  // The same four steps as the handlers write them, on the hexadecimal text.

  function ReadUserIVHex(h: Hex): Result<Bytes> {
    var data1Len :- HexInt(Slice(h, 10, 14));
    Unhex(Slice(h, 14 + data1Len * 2, 14 + data1Len * 2 + 32))
  }

  function ReadUsernameHex(h: Hex): Result<Bytes> {
    var n :- HexInt(Slice(h, 314, 318));
    Unhex(Slice(h, 14, 14 + n * 2))
  }

  function ReadPostTicketHex(h: Hex): Result<Hex> {
    var n :- HexInt(Slice(h, 2, 6));
    Ok(From(h, 2 + n * 2 + 4))
  }

  function ReadSealedHex(post: Hex): Result<(Bytes, Bytes)> {
    var iv :- Unhex(Slice(post, 0, 32));
    var n :- HexInt(Slice(post, 36, 40));
    var cipher :- Unhex(Slice(post, 40, 40 + n * 2));
    Ok((iv, cipher))
  }

  function ReadCommandHex(command: Bytes): Result<Command> {
    var ticketFull := HexOf(command);
    var userIV :- ReadUserIVHex(ticketFull);
    var username :- ReadUsernameHex(ticketFull);
    var postTicketData :- ReadPostTicketHex(ticketFull);
    var (iv, cipher) :- ReadSealedHex(postTicketData);
    Ok(Command(username, userIV, iv, cipher))
  }

  lemma UnhexSlice(b: Bytes, i: nat, j: nat)
    ensures Unhex(Slice(HexOf(b), 2 * i, 2 * j)) == Ok(Slice(b, i, j))
  {
    HexSlice(b, i, j);
    UnhexHex(Slice(b, i, j));
  }

  lemma HexIntSlice(b: Bytes, i: nat, j: nat)
    ensures HexInt(Slice(HexOf(b), 2 * i, 2 * j)) == IntOf(Slice(b, i, j))
  {
    HexSlice(b, i, j);
    HexIntOf(Slice(b, i, j));
  }

  lemma UserIVInHex(c: Bytes)
    ensures ReadUserIVHex(HexOf(c)) == ReadUserIV(c)
  {
    HexIntSlice(c, 5, 7);
    if ReadUserIV(c).Ok? {
      var n := IntOf(Slice(c, 5, 7)).value;
      UnhexSlice(c, 7 + n, 7 + n + 16);
    }
  }

  lemma UsernameInHex(c: Bytes)
    ensures ReadUsernameHex(HexOf(c)) == ReadUsername(c)
  {
    HexIntSlice(c, 157, 159);
    if ReadUsername(c).Ok? {
      UnhexSlice(c, 7, 7 + IntOf(Slice(c, 157, 159)).value);
    }
  }

  lemma PostTicketInHex(c: Bytes)
    ensures ReadPostTicketHex(HexOf(c)) ==
      match ReadPostTicket(c) case Ok(post) => Ok(HexOf(post)) case Err(e) => Err(e)
  {
    HexIntSlice(c, 1, 3);
    if ReadPostTicket(c).Ok? {
      HexFrom(c, 3 + IntOf(Slice(c, 1, 3)).value);
    }
  }

  lemma SealedInHex(post: Bytes)
    ensures ReadSealedHex(HexOf(post)) == ReadSealed(post)
  {
    UnhexSlice(post, 0, 16);
    HexIntSlice(post, 18, 20);
    if ReadSealed(post).Ok? {
      UnhexSlice(post, 20, 20 + IntOf(Slice(post, 18, 20)).value);
    }
  }

  /** The offsets into the hexadecimal text mean the same bytes, for every command,
      however short or malformed. */
  lemma HexReaderAgrees(command: Bytes)
    ensures ReadCommandHex(command) == ReadCommand(command)
  {
    UserIVInHex(command);
    UsernameInHex(command);
    PostTicketInHex(command);
    if ReadPostTicket(command).Ok? {
      SealedInHex(ReadPostTicket(command).value);
    }
  }

  // ----- Writing a ticket -----

  /** What `login` puts into a ticket.  `accountId` is the SteamID slice `[0:16]`. */
  datatype Grant = Grant(
    username: Bytes, iv: Bytes, clientIP: Bytes, server: Bytes, digest: Bytes,
    created: Bytes, expires: Bytes, accountId: Bytes, version1: bool)

  predicate WellFormed(g: Grant) {
    |g.iv| == 16 && |g.clientIP| == 4 && |g.server| == 6 && |g.digest| == 16 &&
    |g.created| == 8 && |g.expires| == 8 && |g.accountId| <= 16
  }

  function Data1(g: Grant): Bytes {
    g.username + g.username + [0, 1] + Reverse(g.clientIP) + g.clientIP + g.server + g.server
    + g.digest + g.created + g.expires
  }

  /** Zero padding to 0x80 bytes; nothing at all when the data is already longer. */
  function Data1Full(g: Grant): Bytes {
    Data1(g) + Repeat(0, 0x80 - |Data1(g)|)
  }

  /** What stands between the client's IV and the end of the ticket. */
  function Tail(g: Grant): Result<Bytes> {
    var data2 :- PackBE(|g.username|, 4);
    if g.version1 then
      Ok([0x00, 0x42] + [0x00, 0x50] + data2 + Repeat(0, 0x50 - 4) + Repeat(0, 0x80))
    else
      Ok([0x00, 0x52] + [0x00, 0x60] + data2 + Repeat(0, 0x60 - 4)
         + [0x00, 0x10] + g.accountId + g.clientIP + Repeat(0, 0x80))
  }

  function RealTicket(g: Grant): Result<Bytes> {
    var tail :- Tail(g);
    Ok([0x00, if g.version1 then 0x01 else 0x02] + [0x00, 0x80] + Data1Full(g) + g.iv + tail)
  }

  /** The ticket with its two-byte length, as the client sends it after a command
      byte, followed by whatever the command carries. */
  function Presented(g: Grant, cmd: Byte, post: Bytes): Result<Bytes> {
    var body :- RealTicket(g);
    var length :- PackBE(|body|, 2);
    Ok([cmd] + length + body + post)
  }

  lemma Data1Length(g: Grant)
    requires WellFormed(g)
    ensures |Data1(g)| == 2 * |g.username| + 54
    ensures |Data1Full(g)| == if |g.username| <= 37 then 0x80 else 2 * |g.username| + 54
    ensures g.username <= Data1Full(g)
  {
  }

  /** A ticket is issued if and only if its length fits two bytes. */
  lemma PresentedIff(g: Grant, cmd: Byte, post: Bytes)
    requires WellFormed(g)
    ensures var block := if |g.username| <= 37 then 128 else 2 * |g.username| + 54;
      var length := block + if g.version1 then 232 else 254 + |g.accountId|;
      if length < 0x1_0000 then Presented(g, cmd, post).Ok? else Presented(g, cmd, post) == Err(StructError)
  {
    Widths();
    Data1Length(g);
    hide Data1Full, Data1, BE, Pow;
  }

  /** Seven fixed bytes, the padded block, the IV, the rest. */
  lemma PresentedLayout(g: Grant, cmd: Byte, post: Bytes)
    requires WellFormed(g) && Presented(g, cmd, post).Ok?
    ensures var c := Presented(g, cmd, post).value; var d, t := Data1Full(g), Tail(g).value;
      && |c| == 7 + |d| + 16 + |t| + |post|
      && c[5..7] == [0x00, 0x80]
      && FromBE(c[1..3]) == |c| - 3 - |post|
      && c[7..7 + |d|] == d
      && c[7 + |d|..7 + |d| + 16] == g.iv
      && c[7 + |d| + 16..|c| - |post|] == t
      && c[|c| - |post|..] == post
  {
    var body := RealTicket(g).value;
    var pre := PresentedForm(g, cmd, post);
    BERoundTrip(|body|, 2);
    FiveParts(pre, Data1Full(g), g.iv, Tail(g).value, post);
    hide Presented, RealTicket, Data1Full, Tail, BE, FromBE;
    var c := Presented(g, cmd, post).value;
    assert c[1..3] == pre[1..3] && c[5..7] == pre[5..7];
  }

  /** The seven fixed bytes: command, length, version, length of the block. */
  lemma PresentedForm(g: Grant, cmd: Byte, post: Bytes) returns (pre: Bytes)
    requires Presented(g, cmd, post).Ok?
    ensures |pre| == 7 && pre[1..3] == BE(|RealTicket(g).value|, 2) && pre[5..7] == [0x00, 0x80]
    ensures RealTicket(g).Ok? && |RealTicket(g).value| < Pow(256, 2) && Tail(g).Ok?
    ensures Presented(g, cmd, post).value == pre + Data1Full(g) + g.iv + Tail(g).value + post
    ensures |RealTicket(g).value| == 4 + |Data1Full(g)| + |g.iv| + |Tail(g).value|
  {
    var version: Bytes := [0x00, if g.version1 then 0x01 else 0x02];
    var length := BE(|RealTicket(g).value|, 2);
    pre := [cmd] + length + version + [0x00, 0x80];
    hide Data1Full, Tail, BE, Pow;
    assert pre[1..3] == length && pre[5..7] == [0x00, 0x80];
    Regrouped([cmd] + length, version + [0x00, 0x80], Data1Full(g), g.iv, Tail(g).value, post);
    assert pre == ([cmd] + length) + (version + [0x00, 0x80]);
  }

  lemma Regrouped(a: Bytes, b: Bytes, d: Bytes, iv: Bytes, t: Bytes, post: Bytes)
    ensures a + (b + d + iv + t) + post == (a + b) + d + iv + t + post
  {
  }

  /** Where five strings stand in their concatenation. */
  lemma FiveParts(a: Bytes, d: Bytes, iv: Bytes, t: Bytes, post: Bytes)
    ensures var c := a + d + iv + t + post; var i := |a| + |d|;
      && c[..|a|] == a && c[|a|..i] == d && c[i..i + |iv|] == iv
      && c[i + |iv|..|c| - |post|] == t && c[|c| - |post|..] == post
  {
  }

  /** A presented ticket byte by byte: the version number, 1 or 2, and after the IV the
      two lengths of the version, the name's length in four bytes, zeros up to the
      second length, for version 2 the account id and the client's address behind
      their marker, and 0x80 zeros. */
  lemma PresentedBytes(g: Grant, cmd: Byte, post: Bytes)
    requires WellFormed(g) && Presented(g, cmd, post).Ok?
    ensures |g.username| < 0x1_0000_0000
    ensures var c, d := Presented(g, cmd, post).value, Data1Full(g);
      && c[..1] == [cmd]
      && |c| >= 23 + |d|
      && c[3..5] == [0, if g.version1 then 1 else 2]
      && c[23 + |d|..] ==
         (if g.version1
          then [0, 0x42, 0, 0x50] + BE(|g.username|, 4) + Repeat(0, 76)
          else [0, 0x52, 0, 0x60] + BE(|g.username|, 4) + Repeat(0, 92) + [0, 0x10] + g.accountId + g.clientIP)
         + Repeat(0, 128) + post
  {
    PresentedVersion(g, cmd, post);
    PresentedLayout(g, cmd, post);
    TailBytes(g);
    hide Presented, Data1Full, Tail, BE, FromBE;
    var c, d, t := Presented(g, cmd, post).value, Data1Full(g), Tail(g).value;
    TwoSlices(c, 23 + |d|, |c| - |post|);
    assert t + post == c[23 + |d|..];
  }

  lemma TwoSlices(c: Bytes, i: nat, j: nat)
    requires i <= j <= |c|
    ensures c[i..j] + c[j..] == c[i..]
  {
  }

  lemma PresentedVersion(g: Grant, cmd: Byte, post: Bytes)
    requires Presented(g, cmd, post).Ok?
    ensures var c := Presented(g, cmd, post).value;
      |c| > 5 && c[..1] == [cmd] && c[3..5] == [0, if g.version1 then 1 else 2]
  {
    hide Data1Full, Tail, BE, Pow;
  }

  lemma TailBytes(g: Grant)
    requires Tail(g).Ok?
    ensures |g.username| < 0x1_0000_0000
    ensures Tail(g).value ==
      (if g.version1
       then [0, 0x42, 0, 0x50] + BE(|g.username|, 4) + Repeat(0, 76)
       else [0, 0x52, 0, 0x60] + BE(|g.username|, 4) + Repeat(0, 92) + [0, 0x10] + g.accountId + g.clientIP)
      + Repeat(0, 128)
  {
    Widths();
    hide BE;
  }

  /** The block byte by byte, for every name: padded with zeros to 0x80 bytes. */
  lemma BlockBytes(g: Grant)
    requires WellFormed(g)
    ensures Data1Full(g) ==
      g.username + g.username + [0, 1] + [g.clientIP[3], g.clientIP[2], g.clientIP[1], g.clientIP[0]] + g.clientIP
      + g.server + g.server + g.digest + g.created + g.expires
      + Repeat(0, if |g.username| <= 37 then 74 - 2 * |g.username| else 0)
  {
    assert Reverse(g.clientIP) == [g.clientIP[3], g.clientIP[2], g.clientIP[1], g.clientIP[0]];
  }

  lemma PostTicketRead(g: Grant, cmd: Byte, post: Bytes)
    requires WellFormed(g) && Presented(g, cmd, post).Ok?
    ensures ReadPostTicket(Presented(g, cmd, post).value) == Ok(post)
  {
    PresentedLayout(g, cmd, post);
    var c := Presented(g, cmd, post).value;
    assert Slice(c, 1, 3) == c[1..3];
  }

  lemma FromBEOne(b: Byte)
    ensures FromBE([b]) == b
  {
    assert [b][..0] == [];
    assert Value(256, [b]) == 256 * Value(256, [b][..0]) + b;
  }

  lemma FromBETwo(hi: Byte, lo: Byte)
    ensures FromBE([hi, lo]) == 256 * hi + lo
  {
    assert [hi, lo][..1] == [hi] && [hi][..0] == [];
    assert Value(256, [hi]) == hi;
  }

  lemma BEFour(n: nat)
    ensures BE(n, 4)[2..4] == [n / 256 % 256, n % 256]
  {
    assert BE(n, 4) == BE(n / 256, 3) + [n % 256];
    assert BE(n / 256, 3) == BE(n / 256 / 256, 2) + [n / 256 % 256];
  }

  lemma UserIVRead(g: Grant, cmd: Byte, post: Bytes)
    requires WellFormed(g) && Presented(g, cmd, post).Ok?
    ensures ReadUserIV(Presented(g, cmd, post).value) == Ok(Presented(g, cmd, post).value[135..151])
    ensures |g.username| <= 37 ==> ReadUserIV(Presented(g, cmd, post).value) == Ok(g.iv)
  {
    PresentedLayout(g, cmd, post);
    Data1Length(g);
    var c := Presented(g, cmd, post).value;
    assert Slice(c, 5, 7) == c[5..7];
    FromBETwo(0, 0x80);
  }

  /** The name's length stands, low byte last, at offset 4 of the tail. */
  lemma TailNumber(g: Grant)
    requires |g.username| <= 37
    ensures Tail(g).Ok? && |Tail(g).value| >= 8
    ensures Tail(g).value[6] == 0 && Tail(g).value[7] == |g.username|
  {
    var n := |g.username|;
    Widths();
    BEFour(n);
    var data2 := BE(n, 4);
    assert data2[2..4][0] == data2[2] && data2[2..4][1] == data2[3];
    var head: Bytes := if g.version1 then [0x00, 0x42] + [0x00, 0x50] else [0x00, 0x52] + [0x00, 0x60];
    assert head + data2 <= Tail(g).value;
  }

  lemma UsernameRead(g: Grant, cmd: Byte, post: Bytes)
    requires WellFormed(g) && Presented(g, cmd, post).Ok? && |g.username| <= 37
    ensures ReadUsername(Presented(g, cmd, post).value) == Ok(g.username)
  {
    PresentedLayout(g, cmd, post);
    Data1Length(g);
    var c := Presented(g, cmd, post).value;
    var n := |g.username|;
    var t := c[151..|c| - |post|];
    TailNumber(g);
    hide Presented, Data1Full, Tail, FromBE;
    assert t[6] == 0 && t[7] == n;
    assert c[157] == t[6] && c[158] == t[7];
    assert Slice(c, 157, 159) == [0, n];
    FromBETwo(0, n);
    assert g.username == c[7..135][..n];
    assert Slice(c, 7, 7 + n) == c[7..135][..n];
  }

  /** Every handler gets back the name, the IV and the data after the ticket, for
      both ticket versions and every name of at most 37 bytes. */
  lemma TicketRoundTrip(g: Grant, cmd: Byte, post: Bytes)
    requires WellFormed(g) && |g.username| <= 37
    ensures var p := Presented(g, cmd, post);
      && p.Ok?
      && ReadCommandHex(p.value) ==
         match ReadSealed(post)
         case Ok((iv, cipher)) => Ok(Command(g.username, g.iv, iv, cipher))
         case Err(e) => Err(e)
  {
    Data1Length(g);
    Widths();
    var c := Presented(g, cmd, post).value;
    HexReaderAgrees(c);
    UserIVRead(g, cmd, post);
    UsernameRead(g, cmd, post);
    PostTicketRead(g, cmd, post);
  }

  /** With a longer name the block overflows, and the handlers read its bytes in
      place of the IV. */
  lemma LongNameLosesIV(g: Grant, cmd: Byte, post: Bytes) returns (iv: Bytes)
    requires WellFormed(g) && Presented(g, cmd, post).Ok? && |g.username| > 37
    ensures |iv| == 16 && Presented(g.(iv := iv), cmd, post).Ok?
    ensures ReadUserIV(Presented(g.(iv := iv), cmd, post).value) != Ok(iv)
  {
    Data1Length(g);
    iv := Repeat(if Data1Full(g)[128] == 0 then 1 else 0, 16);
    var g' := g.(iv := iv);
    UserIVRead(g', cmd, post);
    PresentedLayout(g', cmd, post);
    var c := Presented(g', cmd, post).value;
    assert Data1Full(g') == Data1Full(g);
    assert c[135..151][0] == c[7..7 + |Data1Full(g)|][128];
  }

  ghost predicate RecoversIV(g: Grant, cmd: Byte, post: Bytes, iv: Bytes) {
    var p := Presented(g.(iv := iv), cmd, post);
    p.Ok? && ReadUserIV(p.value) == Ok(iv)
  }

  /** 37 bytes is exactly the limit: for longer names some IV is not read back. */
  lemma IVRecoveredIff(g: Grant, cmd: Byte, post: Bytes)
    requires WellFormed(g) && Presented(g, cmd, post).Ok?
    ensures (forall iv: Bytes :: |iv| == 16 ==> RecoversIV(g, cmd, post, iv)) <==> |g.username| <= 37
  {
    if |g.username| <= 37 {
      forall iv: Bytes | |iv| == 16
        ensures RecoversIV(g, cmd, post, iv)
      {
        UserIVRead(g.(iv := iv), cmd, post);
      }
    } else {
      var iv := LongNameLosesIV(g, cmd, post);
      assert !RecoversIV(g, cmd, post, iv);
    }
  }

  // ----- The other reader -----

  /** What `Steam2Ticket` takes from a ticket's first block, and the IV after it. */
  datatype TicketInfo = TicketInfo(
    username: Bytes, publicIP: Bytes, clientIP: Bytes, servers: Bytes, digest: Bytes,
    created: Bytes, expires: Bytes, iv: Bytes)

  /** `split(b"\0", 1)[0]` */
  function UntilNul(b: Bytes): Bytes {
    if b == [] || b[0] == 0 then [] else [b[0]] + UntilNul(b[1..])
  }

  /** `decode('ascii', errors='ignore')` */
  function AsciiOnly(b: Bytes): Bytes {
    if b == [] then [] else (if b[0] < 128 then [b[0]] else []) + AsciiOnly(b[1..])
  }

  /** The name is the first half of the text before the first NUL, since it is
      stored twice; the other fields follow that text at fixed distances. */
  function ReadBlock(data1: Bytes, iv: Bytes): TicketInfo {
    var text := UntilNul(data1);
    var at := |text| + 2;
    TicketInfo(
      FirstHalf(text),
      Reverse(Slice(data1, at, at + 4)), Slice(data1, at + 4, at + 8), Slice(data1, at + 8, at + 20),
      Slice(data1, at + 20, at + 36), Slice(data1, at + 36, at + 44), Slice(data1, at + 44, at + 52), iv)
  }

  function ParseTicket(data: Bytes): Result<TicketInfo> {
    var n :- UnpackBE(Slice(data, 2, 4), 2);
    Ok(ReadBlock(Slice(data, 4, 4 + n), Slice(data, 4 + n, 4 + n + 16)))
  }

  predicate IsAscii(b: Bytes) {
    forall i :: 0 <= i < |b| ==> b[i] < 128
  }

  lemma {:induction false} UntilNulOf(p: Bytes, rest: Bytes)
    requires 0 !in p
    ensures UntilNul(p + [0] + rest) == p
  {
    var s := p + [0] + rest;
    if p == [] {
      assert s[0] == 0;
    } else {
      assert s[1..] == p[1..] + [0] + rest;
      UntilNulOf(p[1..], rest);
    }
  }

  lemma {:induction false} AsciiOnlyAppend(a: Bytes, b: Bytes)
    ensures AsciiOnly(a + b) == AsciiOnly(a) + AsciiOnly(b)
  {
    if a == [] {
      assert a + b == b;
    } else {
      hide *;
      AsciiOnlyAppend(a[1..], b);
      FirstApart(a, b);
      AsciiOnlyFirst(a[0], a[1..]);
      AsciiOnlyFirst(a[0], a[1..] + b);
      Grouped([a[0]], AsciiOnly(a[1..]), AsciiOnly(b));
    }
  }

  lemma FirstApart(a: Bytes, b: Bytes)
    requires a != []
    ensures a == [a[0]] + a[1..] && a + b == [a[0]] + (a[1..] + b)
  {
  }

  lemma Grouped(a: Bytes, b: Bytes, c: Bytes)
    ensures a + (b + c) == a + b + c
  {
  }

  lemma AsciiOnlyFirst(x: Byte, b: Bytes)
    ensures AsciiOnly([x] + b) == if x < 128 then [x] + AsciiOnly(b) else AsciiOnly(b)
  {
    assert ([x] + b)[1..] == b;
  }

  lemma {:induction false} AsciiOnlySameIff(b: Bytes)
    ensures |AsciiOnly(b)| <= |b|
    ensures AsciiOnly(b) == b <==> IsAscii(b)
  {
    if b != [] {
      AsciiOnlySameIff(b[1..]);
      if b[0] < 128 {
        assert AsciiOnly(b)[1..] == AsciiOnly(b[1..]);
        assert b == [b[0]] + b[1..];
      }
    }
  }

  /** The fields of the padded block by position. */
  lemma Data1Fields(g: Grant)
    requires WellFormed(g) && |g.username| <= 37
    ensures var d, at := Data1Full(g), 2 * |g.username| + 2;
      && |d| == 0x80 && d == (g.username + g.username) + [0] + d[2 * |g.username| + 1..]
      && d[at..at + 4] == Reverse(g.clientIP) && d[at + 4..at + 8] == g.clientIP
      && d[at + 8..at + 20] == g.server + g.server && d[at + 20..at + 36] == g.digest
      && d[at + 36..at + 44] == g.created && d[at + 44..at + 52] == g.expires
  {
    Data1Length(g);
  }

  /** The first half of what stands before the first NUL. */
  function FirstHalf(text: Bytes): Bytes {
    var ascii := AsciiOnly(text);
    ascii[..(|ascii| + 1) / 2]
  }

  /** A name stored twice is read back exactly when it is plain ASCII. */
  lemma NameHalvedIff(name: Bytes)
    ensures FirstHalf(name + name) == name <==> IsAscii(name)
  {
    var half := AsciiOnly(name);
    AsciiOnlyAppend(name, name);
    AsciiOnlySameIff(name);
    hide AsciiOnly;
    assert FirstHalf(name + name) == (half + half)[..|half|] == half;
  }

  lemma {:induction false} UntilNulStops(b: Bytes, z: nat)
    requires z < |b| && b[z] == 0
    ensures |UntilNul(b)| <= z
  {
    if b[0] != 0 {
      UntilNulStops(b[1..], z - 1);
    }
  }

  /** For names of up to 37 bytes the parsed ticket holds the name as it was issued if
      and only if it is plain ASCII without NUL; without NUL, it holds every other
      field too.  The IV it always holds. */
  lemma ParsedTicketIff(g: Grant)
    requires WellFormed(g) && |g.username| <= 37
    ensures RealTicket(g).Ok? && ParseTicket(RealTicket(g).value).Ok?
    ensures var t := ParseTicket(RealTicket(g).value).value;
      && (t.username == g.username <==> IsAscii(g.username) && 0 !in g.username)
      && (0 !in g.username ==>
          && t.publicIP == t.clientIP == g.clientIP && t.servers == g.server + g.server
          && t.digest == g.digest && t.created == g.created && t.expires == g.expires)
      && t.iv == g.iv
  {
    TicketBlock(g);
    if 0 in g.username {
      CutNameDiffers(g);
    } else {
      BlockFields(g);
    }
    hide RealTicket, Data1Full, ParseTicket, UntilNul, FirstHalf, Reverse, IsAscii, Slice, WellFormed;
  }

  lemma TicketBlock(g: Grant)
    requires WellFormed(g) && |g.username| <= 37
    ensures RealTicket(g).Ok? && ParseTicket(RealTicket(g).value) == Ok(ReadBlock(Data1Full(g), g.iv))
  {
    TicketIssued(g);
    TicketFields(g);
    FromBETwo(0, 0x80);
    hide RealTicket, Data1Full, ReadBlock, FromBE, WellFormed;
  }

  lemma BlockFields(g: Grant)
    requires WellFormed(g) && |g.username| <= 37 && 0 !in g.username
    ensures var t := ReadBlock(Data1Full(g), g.iv);
      && t.publicIP == t.clientIP == g.clientIP && t.servers == g.server + g.server
      && t.digest == g.digest && t.created == g.created && t.expires == g.expires
      && (t.username == g.username <==> IsAscii(g.username))
  {
    Data1Fields(g);
    UntilNulOf(g.username + g.username, Data1Full(g)[2 * |g.username| + 1..]);
    NameHalvedIff(g.username);
    ReverseTwice(g.clientIP);
    hide Data1Full, UntilNul, FirstHalf, Reverse, IsAscii, WellFormed;
  }

  /** A NUL in the name cuts both copies off. */
  lemma CutNameDiffers(g: Grant)
    requires WellFormed(g) && 0 in g.username
    ensures FirstHalf(UntilNul(Data1Full(g))) != g.username
  {
    Data1Length(g);
    var z :| 0 <= z < |g.username| && g.username[z] == 0;
    assert Data1Full(g)[z] == 0;
    UntilNulStops(Data1Full(g), z);
    AsciiOnlySameIff(UntilNul(Data1Full(g)));
    hide Data1Full, UntilNul, AsciiOnly;
  }

  lemma TicketIssued(g: Grant)
    requires |g.username| <= 37
    ensures RealTicket(g).Ok?
  {
    Widths();
  }

  lemma TicketFields(g: Grant)
    requires WellFormed(g) && |g.username| <= 37 && RealTicket(g).Ok?
    ensures var data := RealTicket(g).value;
      Slice(data, 2, 4) == [0x00, 0x80] && Slice(data, 4, 132) == Data1Full(g) && Slice(data, 132, 148) == g.iv
  {
    hide Data1Full, Tail;
    Data1Length(g);
  }

  lemma ReverseTwice(b: Bytes)
    ensures Reverse(Reverse(b)) == b
  {
  }
}
