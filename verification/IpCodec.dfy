/** IPv4 endpoints as six bytes: four octets and a little-endian port. */
module IpCodec {
  import opened Results
  import opened Bytes

  const DOT: Byte := 46
  const ZERO: Byte := 48

  // ----- Text -----

  /** `"%d"` of a number */
  function Show(n: nat): (r: Bytes)
    ensures r != []
    ensures forall i :: 0 <= i < |r| ==> ZERO <= r[i] < ZERO + 10
  {
    if n < 10 then [ZERO + n] else Show(n / 10) + [ZERO + n % 10]
  }

  /** `split(b".")` */
  function Split(b: Bytes): (r: seq<Bytes>)
    ensures r != []
  {
    if b == [] then [[]] else
      var r := Split(b[1..]);
      if b[0] == DOT then [[]] + r else [[b[0]] + r[0]] + r[1..]
  }

  predicate IsSpace(b: Byte) {
    b == 32 || 9 <= b <= 13
  }

  function StripLeft(b: Bytes): Bytes {
    if b != [] && IsSpace(b[0]) then StripLeft(b[1..]) else b
  }

  function StripRight(b: Bytes): Bytes {
    if b != [] && IsSpace(b[|b| - 1]) then StripRight(b[..|b| - 1]) else b
  }

  /** Decimal digits, single underscores allowed between them. */
  function ParseDigits(b: Bytes): (r: Option<nat>)
  {
    if b == [] || !(ZERO <= b[|b| - 1] < ZERO + 10) then None else
      var digit: nat := b[|b| - 1] - 48;
      var rest := b[..|b| - 1];
      if rest == [] then Some(digit) else
        match ParseDigits(if rest[|rest| - 1] == 95 then rest[..|rest| - 1] else rest)
        case Some(v) => Some(10 * v + digit)
        case None => None
  }

  /** A sign and underscores are accepted. */
  function ParseSigned(s: Bytes): Result<int> {
    if s != [] && s[0] == 45 then
      match ParseDigits(s[1..])
      case Some(n) => Ok(-(n as int))
      case None => Err(ValueError)
    else
      match ParseDigits(if s != [] && s[0] == 43 then s[1..] else s)
      case Some(n) => Ok(n)
      case None => Err(ValueError)
  }

  /** `int(b)`, without the space around the number */
  function ParseInt(b: Bytes): Result<int> {
    ParseSigned(StripRight(StripLeft(b)))
  }

  // ----- The codec -----

  /** `int(octets[i])` */
  function Octet(octets: seq<Bytes>, i: nat): Result<int> {
    if i < |octets| then ParseInt(octets[i]) else Err(IndexError)
  }

  /** `encodeIP`: the first four parts of the address; further parts are ignored.
      All four are converted before any of them is packed. */
  function EncodeIP(ip: Bytes, port: int): Result<Bytes> {
    var octets := Split(ip);
    var a :- Octet(octets, 0);
    var b :- Octet(octets, 1);
    var c :- Octet(octets, 2);
    var d :- Octet(octets, 3);
    if 0 <= a < 256 && 0 <= b < 256 && 0 <= c < 256 && 0 <= d < 256 && 0 <= port < 65536
    then Ok([a, b, c, d] + LE(port, 2)) else Err(StructError)
  }

  /** A part that is a number. */
  predicate Reads(octets: seq<Bytes>, i: nat) {
    i < |octets| && ParseInt(octets[i]).Ok?
  }

  /** One of the first four parts is there and no number. */
  predicate Misread(octets: seq<Bytes>) {
    exists i: nat :: i < 4 && i < |octets| && !Reads(octets, i)
  }

  predicate InRange(octets: seq<Bytes>)
    requires |octets| >= 4
  {
    forall i: nat :: i < 4 ==> Reads(octets, i) && 0 <= ParseInt(octets[i]).value < 256
  }

  lemma OctetIs(octets: seq<Bytes>, i: nat)
    ensures Octet(octets, i) ==
      if Reads(octets, i) then ParseInt(octets[i]) else Err(if i < |octets| then ValueError else IndexError)
  {
  }

  /** Which error `encodeIP` raises: first for a part that is no number, then for
      missing parts, then for numbers out of range. */
  lemma EncodeErrors(ip: Bytes, port: int)
    ensures var o, r := Split(ip), EncodeIP(ip, port);
      && (r == Err(ValueError) <==> Misread(o))
      && (r == Err(IndexError) <==> !Misread(o) && |o| < 4)
      && (r == Err(StructError) <==> !Misread(o) && |o| >= 4 && !(InRange(o) && 0 <= port < 65536))
      && (r.Ok? <==> !Misread(o) && |o| >= 4 && InRange(o) && 0 <= port < 65536)
  {
    var o := Split(ip);
    OctetIs(o, 0);
    OctetIs(o, 1);
    OctetIs(o, 2);
    OctetIs(o, 3);
    EncodeSteps(ip, port);
    MisreadIff(o);
    hide *;
  }

  lemma MisreadIff(o: seq<Bytes>)
    ensures Misread(o) <==>
      || (0 < |o| && !Reads(o, 0)) || (1 < |o| && !Reads(o, 1))
      || (2 < |o| && !Reads(o, 2)) || (3 < |o| && !Reads(o, 3))
    ensures |o| >= 4 ==> (InRange(o) <==>
      && Reads(o, 0) && 0 <= ParseInt(o[0]).value < 256 && Reads(o, 1) && 0 <= ParseInt(o[1]).value < 256
      && Reads(o, 2) && 0 <= ParseInt(o[2]).value < 256 && Reads(o, 3) && 0 <= ParseInt(o[3]).value < 256)
    ensures forall i: nat :: Reads(o, i) ==> i < |o| && ParseInt(o[i]).Ok?
  {
    hide ParseInt;
  }

  lemma EncodeSteps(ip: Bytes, port: int)
    ensures var o, r := Split(ip), EncodeIP(ip, port);
      var a, b, c, d := Octet(o, 0), Octet(o, 1), Octet(o, 2), Octet(o, 3);
      if a.Err? then r == Err(a.error)
      else if b.Err? then r == Err(b.error)
      else if c.Err? then r == Err(c.error)
      else if d.Err? then r == Err(d.error)
      else if 0 <= port < 65536 && 0 <= a.value < 256 && 0 <= b.value < 256 && 0 <= c.value < 256 && 0 <= d.value < 256
      then r.Ok?
      else r == Err(StructError)
  {
    hide Split, Octet, LE;
  }

  function Dotted(a: Byte, b: Byte, c: Byte, d: Byte): Bytes {
    Show(a) + [DOT] + (Show(b) + [DOT] + (Show(c) + [DOT] + Show(d)))
  }

  /** `decodeIP` */
  function DecodeIP(b: Bytes): Result<(Bytes, nat)> {
    if |b| != 6 then Err(StructError) else Ok((Dotted(b[0], b[1], b[2], b[3]), FromLE(b[4..6])))
  }

  lemma DecodedIff(b: Bytes)
    ensures if |b| == 6 then DecodeIP(b).Ok? else DecodeIP(b) == Err(StructError)
  {
  }

  ghost predicate IsDottedQuad(ip: Bytes) {
    exists a: Byte, b: Byte, c: Byte, d: Byte :: ip == Dotted(a, b, c, d)
  }

  // ----- Round trips -----

  lemma {:induction false} SplitFirst(p: Bytes, rest: Bytes)
    requires DOT !in p
    ensures Split(p) == [p]
    ensures Split(p + [DOT] + rest) == [p] + Split(rest)
  {
    if p == [] {
      assert p + [DOT] + rest == [DOT] + rest;
      assert ([DOT] + rest)[1..] == rest;
    } else {
      SplitFirst(p[1..], rest);
      var s := p + [DOT] + rest;
      assert s[1..] == p[1..] + [DOT] + rest;
      assert [p[0]] + p[1..] == p;
    }
  }

  lemma {:induction false} DigitsOfShow(n: nat)
    ensures ParseDigits(Show(n)) == Some(n)
  {
    if n >= 10 {
      DigitsOfShow(n / 10);
      var r := Show(n);
      assert r[..|r| - 1] == Show(n / 10);
    }
  }

  /** `%d` writes no zero in front of another digit. */
  lemma {:induction false} ShownPlainly(n: nat)
    ensures |Show(n)| == 1 <==> n < 10
    ensures n >= 10 ==> Show(n)[0] != 48
    ensures n < 10 ==> Show(n) == [48 + n]
  {
    if n >= 10 {
      ShownPlainly(n / 10);
    }
  }

  // ----- What `int` accepts -----

  predicate IsDigit(b: Byte) {
    48 <= b <= 57
  }

  /** Digits, with single underscores between them. */
  ghost predicate IsNumeral(s: Bytes) {
    && s != [] && IsDigit(s[0]) && IsDigit(s[|s| - 1])
    && (forall i :: 0 <= i < |s| ==> IsDigit(s[i]) || s[i] == 95)
    && (forall i :: 0 <= i < |s| - 1 ==> IsDigit(s[i]) || IsDigit(s[i + 1]))
  }

  /** Its value: underscores do not count. */
  function NumeralValue(s: Bytes): int {
    if s == [] then 0
    else if s[|s| - 1] == 95 then NumeralValue(s[..|s| - 1])
    else
      var digit: int := s[|s| - 1];
      10 * NumeralValue(s[..|s| - 1]) + digit - 48
  }

  lemma {:induction false} ParseDigitsIff(s: Bytes)
    ensures ParseDigits(s).Some? <==> IsNumeral(s)
    ensures ParseDigits(s).Some? ==> ParseDigits(s).value == NumeralValue(s)
    decreases |s|
  {
    if s != [] && IsDigit(s[|s| - 1]) && |s| > 1 {
      var rest := s[..|s| - 1];
      var shorter := if rest[|rest| - 1] == 95 then rest[..|rest| - 1] else rest;
      ParseDigitsIff(shorter);
      NumeralWithout(s, shorter);
    }
  }

  lemma NumeralWithout(s: Bytes, shorter: Bytes)
    requires |s| > 1 && IsDigit(s[|s| - 1])
    requires shorter == if s[|s| - 2] == 95 then s[..|s| - 2] else s[..|s| - 1]
    ensures IsNumeral(s) <==> IsNumeral(shorter)
    ensures NumeralValue(s[..|s| - 1]) == NumeralValue(shorter)
  {
    assert s[..|s| - 1][..|s| - 2] == s[..|s| - 2];
    if IsNumeral(s) {
      assert forall i :: 0 <= i < |shorter| ==> shorter[i] == s[i];
      if s[|s| - 2] == 95 {
        assert s[0] != 95;
        var i := |s| - 3;
        assert IsDigit(s[i + 1]) || IsDigit(s[i]);
      }
    }
    if IsNumeral(shorter) {
      assert forall i :: 0 <= i < |shorter| ==> s[i] == shorter[i];
    }
  }

  /** What counts as space in bytes. */
  lemma SpacesAre(b: Byte)
    ensures IsSpace(b) <==> b in [9, 10, 11, 12, 13, 32]
  {
  }

  /** A number is a numeral, with a plus or a minus sign in front of it or none;
      everything else is a ValueError. */
  lemma SignedIff(s: Bytes)
    ensures ParseSigned(s) ==
      if IsNumeral(s) then Ok(NumeralValue(s))
      else if s != [] && s[0] == 43 && IsNumeral(s[1..]) then Ok(NumeralValue(s[1..]))
      else if s != [] && s[0] == 45 && IsNumeral(s[1..]) then Ok(-NumeralValue(s[1..]))
      else Err(ValueError)
  {
    hide ParseDigits, NumeralValue, IsNumeral;
    ParseDigitsIff(s);
    if s != [] {
      ParseDigitsIff(s[1..]);
      NumeralStarts(s);
    }
  }

  lemma NumeralStarts(s: Bytes)
    requires s != []
    ensures IsNumeral(s) ==> s[0] != 43 && s[0] != 45
  {
  }

  /** Space around it does not matter. */
  lemma {:induction false} IntStripped(a: Bytes, s: Bytes, b: Bytes)
    requires (forall i :: 0 <= i < |a| ==> IsSpace(a[i])) && (forall i :: 0 <= i < |b| ==> IsSpace(b[i]))
    requires s != [] && !IsSpace(s[0]) && !IsSpace(s[|s| - 1])
    ensures ParseInt(a + s + b) == ParseSigned(s)
  {
    hide ParseSigned;
    if a != [] {
      assert (a + s + b)[1..] == a[1..] + s + b && (a + s + b)[0] == a[0];
      IntStripped(a[1..], s, b);
    } else {
      assert a + s + b == s + b;
      StripAfter(s, b);
    }
  }

  lemma {:induction false} StripAfter(s: Bytes, b: Bytes)
    requires forall i :: 0 <= i < |b| ==> IsSpace(b[i])
    requires s != [] && !IsSpace(s[0]) && !IsSpace(s[|s| - 1])
    ensures StripRight(StripLeft(s + b)) == s
  {
    if b == [] {
      assert s + b == s;
    } else {
      StripAfter(s, b[..|b| - 1]);
      assert (s + b)[..|s + b| - 1] == s + b[..|b| - 1];
    }
  }

  lemma ShownParsed(n: nat)
    ensures ParseInt(Show(n)) == Ok(n)
  {
    DigitsOfShow(n);
  }

  lemma EncodeDotted(a: Byte, b: Byte, c: Byte, d: Byte, port: int)
    ensures EncodeIP(Dotted(a, b, c, d), port) ==
      if 0 <= port < 65536 then Ok([a, b, c, d] + LE(port, 2)) else Err(StructError)
  {
    hide ParseInt, Show, Split;
    SplitFirst(Show(d), []);
    SplitFirst(Show(c), Show(d));
    SplitFirst(Show(b), Show(c) + [DOT] + Show(d));
    SplitFirst(Show(a), Show(b) + [DOT] + (Show(c) + [DOT] + Show(d)));
    ShownParsed(a);
    ShownParsed(b);
    ShownParsed(c);
    ShownParsed(d);
  }

  /** Every six bytes are the encoding of what they decode to. */
  lemma EncodeDecoded(b: Bytes)
    requires |b| == 6
    ensures var (ip, port) := DecodeIP(b).value; EncodeIP(ip, port) == Ok(b)
  {
    hide Dotted, EncodeIP;
    Widths();
    LEUnique(b[4..6]);
    EncodeDotted(b[0], b[1], b[2], b[3], FromLE(b[4..6]));
    assert [b[0], b[1], b[2], b[3]] + b[4..6] == b;
  }

  /** An endpoint survives encoding exactly when its address is a dotted quad as
      `%d` writes it and its port is in range; everything else `encodeIP` accepts,
      such as leading zeros or a fifth part, comes back changed. */
  lemma DecodeEncodedIff(ip: Bytes, port: int)
    ensures (EncodeIP(ip, port).Ok? && DecodeIP(EncodeIP(ip, port).value) == Ok((ip, port))) <==>
      IsDottedQuad(ip) && 0 <= port < 65536
  {
    hide Dotted, Split, ParseInt;
    Widths();
    if IsDottedQuad(ip) && 0 <= port < 65536 {
      var a: Byte, b: Byte, c: Byte, d: Byte :| ip == Dotted(a, b, c, d);
      EncodeDotted(a, b, c, d, port);
      LERoundTrip(port, 2);
      var e := [a, b, c, d] + LE(port, 2);
      assert e[4..6] == LE(port, 2);
    }
  }
}
