/** Framing of the administration protocol: four header bytes, a one-byte command,
    a big-endian length, the payload, and a 16-bit additive checksum. */
module AdminWire {
  import opened Results
  import opened Bytes

  const HEADER: Bytes := [0xbe, 0xee, 0xee, 0xff]

  function Sum(data: Bytes): nat {
    if data == [] then 0 else Sum(data[..|data| - 1]) + data[|data| - 1]
  }

  /** `compute_checksum` */
  function Checksum(data: Bytes): (r: Bytes)
    ensures |r| == 2
  {
    BE(Sum(data) % 65536, 2)
  }

  /** `build_packet` */
  function BuildPacket(cmd: Bytes, payload: Bytes): Result<Bytes> {
    var length :- PackBE(|payload|, 4);
    var body := HEADER + cmd + length + payload;
    Ok(body + Checksum(body))
  }

  /** `parse_packet` */
  function ParsePacket(packet: Bytes): Result<(Bytes, Bytes)> {
    if |packet| < 11 then Err(ValueError)
    else if packet[..4] != HEADER then Err(ValueError)
    else
      var length := FromBE(packet[5..9]);
      if |packet| != 4 + 1 + 4 + length + 2 then Err(ValueError)
      else if Checksum(packet[..|packet| - 2]) != packet[|packet| - 2..] then Err(ValueError)
      else Ok((packet[4..5], packet[9..9 + length]))
  }

  ghost predicate Built(packet: Bytes, cmd: Bytes, payload: Bytes) {
    |cmd| == 1 && BuildPacket(cmd, payload) == Ok(packet)
  }

  /** `sum`: nothing is zero, a byte is itself, and parts add up. */
  lemma {:induction false} SumAdds(a: Bytes, b: Bytes)
    ensures Sum(a + b) == Sum(a) + Sum(b)
  {
    if b == [] {
      assert a + b == a;
    } else {
      var n := |b| - 1;
      SumAdds(a, b[..n]);
      assert (a + b)[..|a + b| - 1] == a + b[..n];
    }
  }

  lemma SumOfOne(b: Byte)
    ensures Sum([]) == 0 && Sum([b]) == b
  {
    assert [b][..0] == [];
  }

  /** The four bytes of the header itself, and where the fields of a built packet lie. */
  lemma Layout(packet: Bytes, cmd: Bytes, payload: Bytes)
    requires Built(packet, cmd, payload)
    ensures |packet| == 11 + |payload|
    ensures packet[..4] == [0xbe, 0xee, 0xee, 0xff] && packet[4..5] == cmd
    ensures FromBE(packet[5..9]) == |payload|
    ensures packet[9..9 + |payload|] == payload
    ensures packet[9 + |payload|..] == Checksum(packet[..9 + |payload|])
  {
    var body := HEADER + cmd + BE(|payload|, 4) + payload;
    assert packet == body + Checksum(body);
    assert packet[..9 + |payload|] == body;
    assert packet[5..9] == BE(|payload|, 4);
    BERoundTrip(|payload|, 4);
  }

  /** The checksum is the sum of the bytes modulo 0x10000, high byte first, so it
      tells two strings apart exactly when their sums differ modulo 0x10000. */
  lemma ChecksumValue(a: Bytes, b: Bytes)
    ensures FromBE(Checksum(a)) == Sum(a) % 65536
    ensures Checksum(a) == Checksum(b) <==> Sum(a) % 65536 == Sum(b) % 65536
  {
    Widths();
    BERoundTrip(Sum(a) % 65536, 2);
    BERoundTrip(Sum(b) % 65536, 2);
  }

  /** Parsing undoes building exactly when the command is one byte long. */
  lemma ParseBuilt(cmd: Bytes, payload: Bytes)
    ensures match BuildPacket(cmd, payload)
      case Ok(packet) => ParsePacket(packet) == Ok((cmd, payload)) <==> |cmd| == 1
      case Err(_) => |payload| >= 0x1_0000_0000
  {
    Widths();
    var r := BuildPacket(cmd, payload);
    if r.Ok? && |cmd| == 1 {
      Layout(r.value, cmd, payload);
    }
  }

  /** Building undoes parsing: a packet that parses is the one its parts build. */
  lemma BuildParsed(packet: Bytes)
    requires ParsePacket(packet).Ok?
    ensures var (cmd, payload) := ParsePacket(packet).value; Built(packet, cmd, payload)
  {
    var (cmd, payload) := ParsePacket(packet).value;
    BEUnique(packet[5..9]);
    var body := HEADER + cmd + packet[5..9] + payload;
    assert packet[..|packet| - 2] == body;
    assert packet == body + packet[|packet| - 2..];
  }

  // ----- Corruption -----

  ghost predicate DiffersOnlyAt(p: Bytes, q: Bytes, i: nat) {
    |p| == |q| && i < |p| && p[i] != q[i] && forall j :: 0 <= j < |p| && j != i ==> p[j] == q[j]
  }

  lemma {:induction false} SumOfOneChange(p: Bytes, q: Bytes, i: nat)
    requires DiffersOnlyAt(p, q, i)
    ensures Sum(q) + p[i] == Sum(p) + q[i]
  {
    var n := |p| - 1;
    if i == n {
      assert p[..n] == q[..n];
    } else {
      SumOfOneChange(p[..n], q[..n], i);
    }
  }

  lemma LengthErrorDetected(p: Bytes, q: Bytes, i: nat)
    requires |p| >= 11 && DiffersOnlyAt(p, q, i) && 5 <= i < 9
    ensures FromBE(q[5..9]) != FromBE(p[5..9])
  {
    assert q[5..9][i - 5] != p[5..9][i - 5];
    BEUnique(p[5..9]);
    BEUnique(q[5..9]);
  }

  lemma SummedErrorDetected(p: Bytes, q: Bytes, n: nat, i: nat)
    requires DiffersOnlyAt(p, q, i) && i < n <= |p|
    ensures Checksum(q[..n]) != Checksum(p[..n])
  {
    SumOfOneChange(p[..n], q[..n], i);
    ChecksumValue(p[..n], q[..n]);
  }

  /** Whatever was not built is refused, always as a ValueError. */
  lemma RefusedIff(packet: Bytes)
    ensures ParsePacket(packet) == Err(ValueError) <==> !exists cmd, payload :: Built(packet, cmd, payload)
    ensures ParsePacket(packet).Err? ==> ParsePacket(packet) == Err(ValueError)
  {
    if ParsePacket(packet).Ok? {
      var (cmd, payload) := ParsePacket(packet).value;
      BuildParsed(packet);
      assert Built(packet, cmd, payload);
    }
    forall cmd, payload | Built(packet, cmd, payload) ensures ParsePacket(packet).Ok? {
      ParseBuilt(cmd, payload);
    }
  }

  /** No single corrupted byte goes unnoticed, wherever it is. */
  lemma OneByteErrorDetected(p: Bytes, q: Bytes, cmd: Bytes, payload: Bytes, i: nat)
    requires Built(p, cmd, payload) && DiffersOnlyAt(p, q, i)
    ensures ParsePacket(q).Err?
  {
    Layout(p, cmd, payload);
    hide Built, Checksum, FromBE;
    var n := |p| - 2;
    if i < 4 {
      assert q[..4][i] != p[..4][i];
    } else if 5 <= i < 9 {
      LengthErrorDetected(p, q, i);
    } else if i < n {
      SummedErrorDetected(p, q, n, i);
      assert p[n..] == q[n..];
    } else {
      assert p[..n] == q[..n];
      assert q[n..][i - n] != p[n..][i - n];
    }
  }

  /** The checksum is a sum, so exchanging two payload bytes is never noticed. */
  lemma SwapUnnoticed(cmd: Bytes, payload: Bytes, i: nat, j: nat, p: Bytes)
    requires i < j < |payload| && Built(p, cmd, payload)
    ensures ParsePacket(p[9 + i := payload[j]][9 + j := payload[i]])
      == Ok((cmd, payload[i := payload[j]][j := payload[i]]))
  {
    Layout(p, cmd, payload);
    var n := |p| - 2;
    var half := p[9 + i := payload[j]];
    var q := half[9 + j := payload[i]];
    if payload[i] == payload[j] {
      assert q == p;
    } else {
      assert p[9..9 + |payload|][i] == p[9 + i] && p[9..9 + |payload|][j] == p[9 + j];
      SumOfOneChange(p[..n], half[..n], 9 + i);
      SumOfOneChange(half[..n], q[..n], 9 + j);
    }
    assert q[..4] == p[..4] && q[4..5] == p[4..5] && q[5..9] == p[5..9] && q[n..] == p[n..];
    assert q[9..9 + |payload|] == payload[i := payload[j]][j := payload[i]];
  }

  // ----- Reading packets from a stream -----

  datatype Received = Packet(data: Bytes) | Closed | BadHeader

  /** The first packet of the bytes still to come, and what is left after it. */
  function NextPacket(stream: Bytes): (Received, Bytes) {
    if |stream| < 9 then (Closed, [])
    else if stream[..4] != HEADER then (BadHeader, stream[9..])
    else
      var n := 9 + FromBE(stream[5..9]) + 2;
      if |stream| < n then (Closed, []) else (Packet(stream[..n]), stream[n..])
  }

  /** A TCP socket: the bytes the peer sends before closing, and whether a filter
      has cut the connection.  `Recv` may return any non-empty part of the bytes, up
      to the length asked for. */
  class Socket {
    var incoming: Bytes
    var cut: bool

    constructor (incoming: Bytes)
      ensures this.incoming == incoming && !cut
    {
      this.incoming := incoming;
      cut := false;
    }

    /** `recv`: a blocked address or a forbidden pattern reads as the end. */
    method Recv(length: nat) returns (chunk: Bytes)
      requires length > 0
      modifies this
      ensures old(cut) ==> cut
      ensures cut && !old(cut) ==> chunk == []
      ensures |chunk| <= length && (!cut ==> chunk + incoming == old(incoming))
      ensures !cut && chunk == [] ==> old(incoming) == []
      ensures |incoming| + |chunk| <= |old(incoming)|
    {
      var forbidden: bool := *;
      if incoming == [] {
        return [];
      }
      var n :| 1 <= n <= length && n <= |incoming|;
      chunk := incoming[..n];
      incoming := incoming[n..];
      if forbidden {
        cut := true;
        chunk := [];
      }
    }

    /** `recv_all`: the bytes asked for, or fewer if the peer closes first; None, or
        fewer, if a filter cuts the connection. */
    method RecvAll(length: nat) returns (data: Option<Bytes>)
      modifies this
      ensures old(cut) ==> cut
      ensures !cut ==> data == Some(Slice(old(incoming), 0, length)) && incoming == From(old(incoming), length)
      ensures cut && !old(cut) ==> data.None? || |data.value| < length
    {
      var got: Bytes := [];
      while |got| < length
        invariant cut == old(cut) && |got| <= length
        invariant !cut ==> got + incoming == old(incoming)
        decreases |incoming|, length - |got|
      {
        var chunk := Recv(length - |got|);
        var allowed: bool := *;
        if !allowed {
          cut := true;
          return None;
        }
        if chunk == [] {
          break;
        }
        got := got + chunk;
      }
      data := Some(got);
    }
  }

  /** `recv_full_packet`: however the network splits the bytes, the next packet; a
      filter can end the connection, but never alters a packet. */
  method RecvFullPacket(sock: Socket) returns (r: Received)
    requires !sock.cut
    modifies sock
    ensures !sock.cut ==> (r, sock.incoming) == NextPacket(old(sock.incoming))
    ensures sock.cut ==> r == Closed
  {
    ghost var stream := sock.incoming;
    var header := sock.RecvAll(9);
    if header.None? || |header.value| < 9 {
      return Closed;
    }
    var h := header.value;
    assert h == stream[..9] && h[..4] == stream[..4] && h[5..9] == stream[5..9];
    if h[..4] != HEADER {
      return BadHeader;
    }
    var length := FromBE(h[5..9]);
    var body := sock.RecvAll(length + 2);
    if body.None? || |body.value| < length + 2 {
      return Closed;
    }
    assert h + body.value == stream[..9 + length + 2];
    return Packet(h + body.value);
  }

  /** Every packet the receive loop sees before the connection ends. */
  function Drain(stream: Bytes): seq<Bytes>
    decreases |stream|
  {
    var (r, rest) := NextPacket(stream);
    if r.Packet? then [r.data] + Drain(rest) else []
  }

  function Concat(packets: seq<Bytes>): Bytes {
    if packets == [] then [] else packets[0] + Concat(packets[1..])
  }

  ghost predicate IsBuilt(packet: Bytes) {
    exists cmd, payload :: Built(packet, cmd, payload)
  }

  ghost predicate AllBuilt(packets: seq<Bytes>) {
    forall i :: 0 <= i < |packets| ==> IsBuilt(packets[i])
  }

  /** What is read from any stream: a packet exactly if the header is right and all
      the bytes the length promises are there, and a wrong header as soon as nine
      bytes are. */
  lemma NextPacketIff(stream: Bytes)
    ensures var (r, rest) := NextPacket(stream);
      var header: Bytes := [0xbe, 0xee, 0xee, 0xff];
      && (r.Packet? <==> |stream| >= 11 && header <= stream && |stream| >= 11 + FromBE(stream[5..9]))
      && (r.Packet? ==> r.data + rest == stream && |r.data| == 11 + FromBE(stream[5..9]))
      && (r.BadHeader? <==> |stream| >= 9 && !(header <= stream))
      && (r.BadHeader? ==> rest == stream[9..])
      && (r.Closed? ==> rest == [])
  {
    hide FromBE;
  }

  lemma NextIsFirst(p: Bytes, rest: Bytes, cmd: Bytes, payload: Bytes)
    requires Built(p, cmd, payload)
    ensures NextPacket(p + rest) == (Packet(p), rest)
  {
    Layout(p, cmd, payload);
    var s := p + rest;
    assert s[..4] == p[..4] && s[5..9] == p[5..9] && s[..|p|] == p && s[|p|..] == rest;
  }

  /** A proper beginning of a built packet is never taken for a packet. */
  lemma PrefixIncomplete(p: Bytes, n: nat, cmd: Bytes, payload: Bytes)
    requires Built(p, cmd, payload) && n < |p|
    ensures NextPacket(p[..n]) == (Closed, [])
  {
    Layout(p, cmd, payload);
    if n >= 9 {
      assert p[..n][..4] == p[..4] && p[..n][5..9] == p[5..9];
    }
  }

  lemma DrainFirst(s: Bytes, p: Bytes, rest: Bytes)
    requires IsBuilt(p) && s == p + rest
    ensures Drain(s) == [p] + Drain(rest)
  {
    var cmd, payload :| Built(p, cmd, payload);
    NextIsFirst(p, rest, cmd, payload);
  }

  lemma {:induction false} DrainAll(s: Bytes, packets: seq<Bytes>, tail: Bytes)
    requires AllBuilt(packets) && s == Concat(packets) + tail
    ensures Drain(s) == packets + Drain(tail)
    decreases |packets|
  {
    hide IsBuilt, NextPacket;
    if packets == [] {
      assert s == tail;
    } else {
      var p, ps := packets[0], packets[1..];
      var rest := Concat(ps) + tail;
      assert IsBuilt(p) && s == p + rest;
      DrainAll(rest, ps, tail);
      DrainFirst(s, p, rest);
      assert packets == [p] + ps;
    }
  }

  /** The stream of any built packets, cut off anywhere inside a last one, is read
      back as exactly the complete packets, in order. */
  lemma StreamSplits(packets: seq<Bytes>, last: Bytes, n: nat)
    requires AllBuilt(packets) && IsBuilt(last) && n < |last|
    ensures Drain(Concat(packets) + last[..n]) == packets
  {
    var cmd, payload :| Built(last, cmd, payload);
    PrefixIncomplete(last, n, cmd, payload);
    DrainAll(Concat(packets) + last[..n], packets, last[..n]);
  }
}
