/** The content list server's reply to a request for server groups: a count, a cell
    id, and for each group an update server and a content server of six bytes. */
module GroupList {
  import opened Results
  import opened Bytes
  import opened IpCodec

  /** A port is a number or, from the configuration, text. */
  datatype Port = Number(value: int) | Text(digits: Bytes)
  datatype Endpoint = Endpoint(ip: Bytes, port: Port)
  datatype Group = Group(cell: nat, update: Option<Endpoint>, content: Option<Endpoint>)

  /** The fields of a request that decide the reply. */
  datatype Query = Query(specific: bool, appid: nat, version: nat, limit: nat, cell: nat)

  /** Everything the reply depends on besides the request: the manager's answer, the
      latency aggregator's, and the servers that stand in for missing ones. */
  datatype Site = Site(
    lookup: Query -> seq<Group>,
    fastest: seq<Bytes> -> Option<Bytes>,
    clientIp: Bytes,
    defaultUpdate: Endpoint,
    defaultContent: Endpoint)

  const REFUSED: Bytes := [0]

  /** `unpack(">HIIHII", msg[:20])`; a request for specific content has four more
      bytes.  None when its kind is neither 0 nor 1. */
  function ReadQuery(msg: Bytes): Result<Option<Query>> {
    var m := Slice(msg, 0, 20);
    if |m| != 20 then Err(StructError) else
    var kind := FromBE(m[0..2]);
    if kind == 1 && |Slice(msg, 20, 24)| != 4 then Err(StructError)
    else if kind != 0 && kind != 1 then Ok(None)
    else Ok(Some(Query(kind == 1, FromBE(m[2..6]), FromBE(m[6..10]), FromBE(m[10..12]), FromBE(m[12..16]))))
  }

  /** A request as a client packs it: kind, application, version, limit, cell and an
      unknown word, and one more word if it asks for specific content. */
  function PackedQuery(q: Query, unknown: nat, more: Bytes): Bytes {
    BE(if q.specific then 1 else 0, 2) + BE(q.appid, 4) + BE(q.version, 4) + BE(q.limit, 2) + BE(q.cell, 4)
    + BE(unknown, 4) + more
  }

  /** The server reads the fields the client packed, if specific content has its word. */
  lemma QueryRead(q: Query, unknown: nat, more: Bytes)
    requires q.appid < 0x1_0000_0000 && q.version < 0x1_0000_0000
    requires q.limit < 0x1_0000 && q.cell < 0x1_0000_0000
    ensures ReadQuery(PackedQuery(q, unknown, more)) ==
      if q.specific && |more| < 4 then Err(StructError) else Ok(Some(q))
  {
    Widths();
    var kind := if q.specific then 1 else 0;
    BERoundTrip(kind, 2);
    BERoundTrip(q.appid, 4);
    BERoundTrip(q.version, 4);
    BERoundTrip(q.limit, 2);
    BERoundTrip(q.cell, 4);
    QueryFields(BE(kind, 2), BE(q.appid, 4), BE(q.version, 4), BE(q.limit, 2), BE(q.cell, 4), BE(unknown, 4), more);
    hide BE, FromBE, Pow;
  }

  lemma QueryFields(kind: Bytes, appid: Bytes, version: Bytes, limit: Bytes, cell: Bytes, unknown: Bytes, more: Bytes)
    requires |kind| == 2 && |appid| == 4 && |version| == 4 && |limit| == 2 && |cell| == 4 && |unknown| == 4
    ensures var msg := kind + appid + version + limit + cell + unknown + more;
      && Slice(msg, 0, 20) == kind + appid + version + limit + cell + unknown
      && Slice(msg, 0, 20)[0..2] == kind && Slice(msg, 0, 20)[2..6] == appid && Slice(msg, 0, 20)[6..10] == version
      && Slice(msg, 0, 20)[10..12] == limit && Slice(msg, 0, 20)[12..16] == cell
      && |Slice(msg, 20, 24)| == if |more| < 4 then |more| else 4
  {
  }

  /** A kind that is neither 0 nor 1 is refused, and a short request is an error. */
  lemma QueryRefused(msg: Bytes)
    ensures ReadQuery(msg) == Err(StructError) <==> |msg| < 20 || (FromBE(msg[..2]) == 1 && |msg| < 24)
    ensures ReadQuery(msg) == Ok(None) <==> |msg| >= 20 && FromBE(msg[..2]) > 1
  {
    hide FromBE;
    if |msg| >= 20 {
      assert Slice(msg, 0, 20)[0..2] == msg[..2];
    }
  }

  // ----- Choosing servers -----

  function ContentIps(servers: seq<Group>): seq<Bytes> {
    if servers == [] then [] else
      var g := servers[|servers| - 1];
      ContentIps(servers[..|servers| - 1]) + if g.content.Some? then [g.content.value.ip] else []
  }

  /** The first server whose content server has the address. */
  function FirstWith(servers: seq<Group>, ip: Bytes): Option<Group>
  {
    if servers == [] then None
    else if servers[0].content.Some? && servers[0].content.value.ip == ip then Some(servers[0])
    else FirstWith(servers[1..], ip)
  }

  /** Of several servers, the one at the client's own address or the fastest. */
  function Chosen(site: Site, servers: seq<Group>): seq<Group> {
    if |servers| <= 1 then servers else
      var ips := ContentIps(servers);
      var best := if site.clientIp in ips then Some(site.clientIp) else site.fastest(ips);
      if best.None? || best.value == [] then servers else
        match FirstWith(servers, best.value)
        case Some(g) => [g]
        case None => servers
  }

  predicate HasContentIp(g: Group, ip: Bytes) {
    g.content.Some? && g.content.value.ip == ip
  }

  lemma {:induction false} ContentIpsHold(servers: seq<Group>, ip: Bytes)
    ensures ip in ContentIps(servers) <==> exists k :: 0 <= k < |servers| && HasContentIp(servers[k], ip)
  {
    if servers != [] {
      var n := |servers| - 1;
      ContentIpsHold(servers[..n], ip);
      if ip in ContentIps(servers[..n]) {
        var k :| 0 <= k < n && HasContentIp(servers[..n][k], ip);
        assert HasContentIp(servers[k], ip);
      }
      if k :| 0 <= k < |servers| && HasContentIp(servers[k], ip) {
        assert k < n ==> HasContentIp(servers[..n][k], ip);
      }
    }
  }

  lemma {:induction false} FirstWithIsFirst(servers: seq<Group>, ip: Bytes, k: nat)
    requires k < |servers| && HasContentIp(servers[k], ip)
    requires forall j :: 0 <= j < k ==> !HasContentIp(servers[j], ip)
    ensures FirstWith(servers, ip) == Some(servers[k])
  {
    if k > 0 {
      FirstWithIsFirst(servers[1..], ip, k - 1);
    }
  }

  /** A client on the machine of a listed content server is sent to the first such
      server and to no other. */
  lemma OwnServerChosen(site: Site, servers: seq<Group>, k: nat)
    requires |servers| > 1 && site.clientIp != []
    requires k < |servers| && HasContentIp(servers[k], site.clientIp)
    requires forall j :: 0 <= j < k ==> !HasContentIp(servers[j], site.clientIp)
    ensures Chosen(site, servers) == [servers[k]]
  {
    ContentIpsHold(servers, site.clientIp);
    FirstWithIsFirst(servers, site.clientIp, k);
  }

  /** The addresses handed to the latency aggregator, in the order of the list. */
  lemma {:induction false} ContentIpsAdd(a: seq<Group>, b: seq<Group>)
    ensures ContentIps(a + b) == ContentIps(a) + ContentIps(b)
  {
    if b == [] {
      assert a + b == a;
    } else {
      var n := |b| - 1;
      ContentIpsAdd(a, b[..n]);
      assert (a + b)[..|a + b| - 1] == a + b[..n];
    }
  }

  lemma ContentIpOfOne(g: Group)
    ensures ContentIps([]) == []
    ensures ContentIps([g]) == match g.content case Some(e) => [e.ip] case None => []
  {
    assert [g][..0] == [];
  }

  /** Another client is sent to the first server at the address the aggregator names. */
  lemma FastestChosen(site: Site, servers: seq<Group>, k: nat, ip: Bytes)
    requires |servers| > 1 && k < |servers| && ip != []
    requires forall j :: 0 <= j < |servers| ==> !HasContentIp(servers[j], site.clientIp)
    requires site.fastest(ContentIps(servers)) == Some(ip) && HasContentIp(servers[k], ip)
    requires forall j :: 0 <= j < k ==> !HasContentIp(servers[j], ip)
    ensures Chosen(site, servers) == [servers[k]]
  {
    ContentIpsHold(servers, site.clientIp);
    FirstWithIsFirst(servers, ip, k);
    hide ContentIps, FirstWith;
  }

  /** The list stays as it is when it has one server, when the aggregator names no
      address, or one that no server has. */
  lemma ListKept(site: Site, servers: seq<Group>)
    requires forall j :: 0 <= j < |servers| ==> !HasContentIp(servers[j], site.clientIp)
    requires match site.fastest(ContentIps(servers))
      case None => true
      case Some(ip) => ip == [] || forall j :: 0 <= j < |servers| ==> !HasContentIp(servers[j], ip)
    ensures Chosen(site, servers) == servers
  {
    ContentIpsHold(servers, site.clientIp);
    match site.fastest(ContentIps(servers))
    case None =>
    case Some(ip) =>
      if ip != [] {
        FirstWithNone(servers, ip);
      }
      hide ContentIps, FirstWith;
  }

  lemma {:induction false} FirstWithNone(servers: seq<Group>, ip: Bytes)
    requires forall j :: 0 <= j < |servers| ==> !HasContentIp(servers[j], ip)
    ensures FirstWith(servers, ip) == None
  {
    if servers != [] {
      assert !HasContentIp(servers[0], ip);
      forall j | 0 <= j < |servers| - 1 ensures !HasContentIp(servers[1..][j], ip) {
        assert servers[1..][j] == servers[j + 1];
      }
      FirstWithNone(servers[1..], ip);
    }
  }

  // ----- The entries -----

  function UpdateServer(site: Site, g: Group): Endpoint {
    if g.update.Some? then g.update.value else site.defaultUpdate
  }

  function ContentServer(site: Site, g: Group): Endpoint {
    if g.content.Some? then g.content.value else site.defaultContent
  }

  function PortNumber(port: Port): Result<int> {
    match port
    case Number(value) => Ok(value)
    case Text(digits) => ParseInt(digits)
  }

  /** `encodeIP`, which converts a port given as text before anything else. */
  function EncodeEndpoint(e: Endpoint): Result<Bytes> {
    var port :- PortNumber(e.port);
    EncodeIP(e.ip, port)
  }

  function GroupBytes(site: Site, g: Group): Result<Bytes> {
    var u, c := UpdateServer(site, g), ContentServer(site, g);
    var update :- EncodeEndpoint(u);
    var content :- EncodeEndpoint(c);
    Ok(update + content)
  }

  function Entries(site: Site, servers: seq<Group>): Result<Bytes> {
    if servers == [] then Ok([]) else
      var init :- Entries(site, servers[..|servers| - 1]);
      var last :- GroupBytes(site, servers[|servers| - 1]);
      Ok(init + last)
  }

  /** The groups the loop gets to. */
  function Sent(servers: seq<Group>, limit: nat): seq<Group> {
    if |servers| > limit then servers[..limit] else servers
  }

  /** The reply: groups up to the limit; the count has already been raised when the
      loop notices that the limit is reached.  Two groups are cut to one. */
  function Reply(site: Site, servers: seq<Group>, limit: nat): Result<Bytes> {
    var full := |servers| > limit;
    var response :- Entries(site, Sent(servers, limit));
    var count := if full then limit + 1 else |servers|;
    var cell := if full then servers[limit].cell else if servers == [] then 0 else servers[|servers| - 1].cell;
    var cut := count == 2 && |response| > 12;
    var head :- PackBE(if cut then 1 else count, 2);
    var tail :- PackBE(cell, 4);
    Ok(head + tail + if cut then response[..12] else response)
  }

  lemma {:induction false} EntriesStayFailed(site: Site, servers: seq<Group>, k: nat)
    requires k <= |servers| && Entries(site, servers[..k]).Err?
    ensures Entries(site, servers) == Entries(site, servers[..k])
  {
    hide GroupBytes;
    if k < |servers| {
      var n := |servers| - 1;
      assert servers[..n][..k] == servers[..k];
      EntriesStayFailed(site, servers[..n], k);
    } else {
      assert servers[..k] == servers;
    }
  }

  lemma SentStarts(servers: seq<Group>, limit: nat, k: nat)
    requires k <= |servers| && k <= limit
    ensures k <= |Sent(servers, limit)| && Sent(servers, limit)[..k] == servers[..k]
  {
  }

  /** `get_general_server_list` */
  method GetGeneralServerList(site: Site, msg: Bytes) returns (r: Result<Bytes>)
    ensures r == match ReadQuery(msg)
                 case Err(e) => Err(e)
                 case Ok(None) => Ok(REFUSED)
                 case Ok(Some(q)) => Reply(site, Chosen(site, site.lookup(q)), q.limit)
  {
    hide ReadQuery, Chosen, GroupBytes;
    var query := ReadQuery(msg);
    if query.Err? {
      return Err(query.error);
    }
    if query.value.None? {
      return Ok(REFUSED);
    }
    var q := query.value.value;
    var servers := Chosen(site, site.lookup(q));
    var cellid, count := 0, 0;
    var response: Bytes := [];
    var i := 0;
    while i < |servers|
      invariant 0 <= i <= |servers| && i <= q.limit && count == i
      invariant cellid == if i == 0 then 0 else servers[i - 1].cell
      invariant Entries(site, servers[..i]) == Ok(response)
    {
      cellid := servers[i].cell;
      count := count + 1;
      if i >= q.limit {
        break;
      }
      assert servers[..i + 1][..i] == servers[..i];
      var group := GroupBytes(site, servers[i]);
      if group.Err? {
        ghost var sent := Sent(servers, q.limit);
        SentStarts(servers, q.limit, i + 1);
        EntriesStayFailed(site, sent, i + 1);
        return Err(group.error);
      }
      response := response + group.value;
      i := i + 1;
    }
    assert i == |servers| ==> servers[..i] == servers;
    if count == 2 && |response| > 12 {
      response := response[..12];
      count := 1;
    }
    var head := PackBE(count, 2);
    if head.Err? {
      return Err(head.error);
    }
    var tail := PackBE(cellid, 4);
    if tail.Err? {
      return Err(tail.error);
    }
    return Ok(head.value + tail.value + response);
  }

  // ----- The shape of the reply -----

  lemma GroupLength(site: Site, g: Group)
    ensures GroupBytes(site, g).Ok? ==> |GroupBytes(site, g).value| == 12
  {
    hide Split, ParseInt;
  }

  lemma {:induction false} EntriesIff(site: Site, servers: seq<Group>)
    ensures Entries(site, servers).Ok? <==> forall i :: 0 <= i < |servers| ==> GroupBytes(site, servers[i]).Ok?
  {
    hide GroupBytes;
    if servers != [] {
      var n := |servers| - 1;
      EntriesIff(site, servers[..n]);
      assert forall i :: 0 <= i < n ==> servers[..n][i] == servers[i];
    }
  }

  /** A reply is made if and only if every group sent can be encoded and count and
      cell fit their fields. */
  lemma ReplyIff(site: Site, servers: seq<Group>, limit: nat)
    ensures Reply(site, servers, limit).Ok? <==>
      && (forall i :: 0 <= i < |servers| && i < limit ==> GroupBytes(site, servers[i]).Ok?)
      && (if |servers| > limit then limit + 1 else |servers|) < 0x1_0000
      && (servers == [] || servers[Min(limit, |servers| - 1)].cell < 0x1_0000_0000)
  {
    Widths();
    SentEncoded(site, servers, limit);
    hide Entries, GroupBytes, Pow, BE, Sent;
  }

  lemma SentEncoded(site: Site, servers: seq<Group>, limit: nat)
    ensures Entries(site, Sent(servers, limit)).Ok? <==>
      forall i :: 0 <= i < |servers| && i < limit ==> GroupBytes(site, servers[i]).Ok?
  {
    var sent := Sent(servers, limit);
    EntriesIff(site, sent);
    hide Entries, GroupBytes;
    assert |sent| == Min(limit, |servers|) && forall i :: 0 <= i < |sent| ==> sent[i] == servers[i];
  }

  /** Entry i stands at 12 i, and nothing follows the last. */
  lemma {:induction false} EntriesLayout(site: Site, servers: seq<Group>, i: nat)
    requires Entries(site, servers).Ok?
    ensures var e := Entries(site, servers).value;
      && |e| == 12 * |servers|
      && (i < |servers| ==> GroupBytes(site, servers[i]) == Ok(e[12 * i..12 * i + 12]))
  {
    hide GroupBytes;
    if servers != [] {
      var n := |servers| - 1;
      EntriesLayout(site, servers[..n], i);
      GroupLength(site, servers[n]);
      var init, e := Entries(site, servers[..n]).value, Entries(site, servers).value;
      if i == n {
        assert e[12 * i..12 * i + 12] == GroupBytes(site, servers[n]).value;
      } else if i < n {
        assert e[12 * i..12 * i + 12] == init[12 * i..12 * i + 12];
      }
    }
  }

  /** The count field says how many groups follow if and only if the server list
      fits the client's limit; when it does not, it says one too many.  The cell is
      that of the last group looked at. */
  lemma CountHonestIff(site: Site, servers: seq<Group>, limit: nat)
    requires Reply(site, servers, limit).Ok?
    ensures var r := Reply(site, servers, limit).value;
      && |r| >= 6 && (|r| == 6 + 12 * FromBE(r[..2]) <==> |servers| <= limit)
      && (|servers| > limit ==> |r| == 6 + 12 * limit && FromBE(r[..2]) == limit + 1)
      && FromBE(r[2..6]) == if servers == [] then 0 else servers[Min(limit, |servers| - 1)].cell
  {
    hide FromBE, PackBE, Entries;
    var full := |servers| > limit;
    var sent := Sent(servers, limit);
    EntriesLayout(site, sent, 0);
    var r := Reply(site, servers, limit).value;
    var count: nat := if full then limit + 1 else |servers|;
    var count' := if count == 2 && 12 * |sent| > 12 then 1 else count;
    PackedCount(count');
    var cell := if full then servers[limit].cell else if servers == [] then 0 else servers[|servers| - 1].cell;
    PackedCell(cell);
    assert r[..2] == PackBE(count', 2).value && r[2..6] == PackBE(cell, 4).value;
  }

  lemma PackedCount(n: nat)
    ensures PackBE(n, 2).Ok? ==> |PackBE(n, 2).value| == 2 && FromBE(PackBE(n, 2).value) == n
  {
    if PackBE(n, 2).Ok? {
      BERoundTrip(n, 2);
    }
  }

  lemma PackedCell(n: nat)
    ensures PackBE(n, 4).Ok? ==> |PackBE(n, 4).value| == 4 && FromBE(PackBE(n, 4).value) == n
  {
    if PackBE(n, 4).Ok? {
      BERoundTrip(n, 4);
    }
  }

  /** What is sent is the beginning of the list, in order, up to the limit, save that
      a second group of two is dropped. */
  lemma GroupsSentInOrder(site: Site, servers: seq<Group>, limit: nat, i: nat)
    requires Reply(site, servers, limit).Ok? && i < |servers| && i < limit
    requires |servers| == 2 ==> i == 0
    ensures var r := Reply(site, servers, limit).value;
      6 + 12 * i + 12 <= |r| && GroupBytes(site, servers[i]) == Ok(r[6 + 12 * i..6 + 12 * i + 12])
  {
    hide *;
    var k := 12 * i;
    ReplySlice(site, servers, limit, k);
    EntrySent(site, servers, limit, i);
  }

  lemma ReplySlice(site: Site, servers: seq<Group>, limit: nat, k: nat)
    requires Reply(site, servers, limit).Ok? && limit > 0 && (|servers| == 2 ==> k == 0)
    ensures Entries(site, Sent(servers, limit)).Ok?
    ensures var r, e := Reply(site, servers, limit).value, Entries(site, Sent(servers, limit)).value;
      k + 12 <= |e| ==> 6 + k + 12 <= |r| && r[6 + k..6 + k + 12] == e[k..k + 12]
  {
    ReplyBody(site, servers, limit);
    hide Reply, Entries, Sent;
    var r, e := Reply(site, servers, limit).value, Entries(site, Sent(servers, limit)).value;
    if k + 12 <= |e| {
      SliceFrom(r, e, k, if |servers| == 2 then 12 else |e|);
    }
  }

  lemma EntrySent(site: Site, servers: seq<Group>, limit: nat, i: nat)
    requires i < |servers| && i < limit && Entries(site, Sent(servers, limit)).Ok?
    ensures var e := Entries(site, Sent(servers, limit)).value;
      12 * i + 12 <= |e| && GroupBytes(site, servers[i]) == Ok(e[12 * i..12 * i + 12])
  {
    EntriesLayout(site, Sent(servers, limit), i);
    hide Entries, GroupBytes;
    assert Sent(servers, limit)[i] == servers[i];
  }

  lemma ReplyBody(site: Site, servers: seq<Group>, limit: nat)
    requires Reply(site, servers, limit).Ok?
    ensures Entries(site, Sent(servers, limit)).Ok?
    ensures var r, e := Reply(site, servers, limit).value, Entries(site, Sent(servers, limit)).value;
      var n := if |servers| == 2 && limit > 0 then 12 else |e|;
      |r| >= 6 && n <= |e| && r[6..] == e[..n]
  {
    hide FromBE, PackBE, Entries;
    var full := |servers| > limit;
    EntriesLayout(site, Sent(servers, limit), 0);
    var e := Entries(site, Sent(servers, limit)).value;
    var count := if full then limit + 1 else |servers|;
    var cut := count == 2 && |e| > 12;
    PackedCount(if cut then 1 else count);
    PackedCell(if full then servers[limit].cell else if servers == [] then 0 else servers[|servers| - 1].cell);
    assert Reply(site, servers, limit).value[6..] == if cut then e[..12] else e;
    assert e[..|e|] == e;
  }

  lemma SliceFrom(r: Bytes, e: Bytes, k: nat, n: nat)
    requires |r| >= 6 && k + 12 <= n <= |e| && r[6..] == e[..n]
    ensures 6 + k + 12 <= |r| && r[6 + k..6 + k + 12] == e[k..k + 12]
  {
    assert r[6 + k..6 + k + 12] == r[6..][k..k + 12] == e[..n][k..k + 12];
  }

  ghost predicate IsEndpoint(e: Endpoint) {
    IsDottedQuad(e.ip) && PortNumber(e.port).Ok? && 0 <= PortNumber(e.port).value < 65536
  }

  predicate Decodes(b: Bytes, e: Endpoint) {
    PortNumber(e.port).Ok? && DecodeIP(b) == Ok((e.ip, PortNumber(e.port).value))
  }

  lemma EndpointDecodes(e: Endpoint)
    requires IsEndpoint(e)
    ensures EncodeEndpoint(e).Ok?
    ensures |EncodeEndpoint(e).value| == 6 && Decodes(EncodeEndpoint(e).value, e)
  {
    DecodeEncodedIff(e.ip, PortNumber(e.port).value);
    hide EncodeIP, PortNumber, IsDottedQuad, Dotted, FromLE;
  }

  /** A port given as text is read back if it is the number's numeral. */
  lemma PortRead(n: nat)
    ensures PortNumber(Number(n)) == Ok(n) == PortNumber(Text(Show(n)))
  {
    ShownParsed(n);
    hide ParseInt, Show;
  }

  lemma GroupDecodes(site: Site, g: Group)
    requires IsEndpoint(UpdateServer(site, g)) && IsEndpoint(ContentServer(site, g))
    ensures GroupBytes(site, g).Ok? && |GroupBytes(site, g).value| == 12
    ensures Decodes(GroupBytes(site, g).value[..6], UpdateServer(site, g))
    ensures Decodes(GroupBytes(site, g).value[6..], ContentServer(site, g))
  {
    hide EncodeEndpoint, IsEndpoint, Decodes;
    var u, c := UpdateServer(site, g), ContentServer(site, g);
    EndpointDecodes(u);
    EndpointDecodes(c);
    var b := GroupBytes(site, g).value;
    assert b[..6] == EncodeEndpoint(u).value && b[6..] == EncodeEndpoint(c).value;
  }

  lemma StandIns(site: Site, g: Group)
    ensures UpdateServer(site, g) == match g.update case Some(e) => e case None => site.defaultUpdate
    ensures ContentServer(site, g) == match g.content case Some(e) => e case None => site.defaultContent
  {
  }

  /** The client decodes entry i to the group's update server and content server, in
      that order, or to those that stand in for a missing one. */
  lemma GroupsDecode(site: Site, servers: seq<Group>, limit: nat, i: nat)
    requires Reply(site, servers, limit).Ok? && i < |servers| && i < limit
    requires |servers| == 2 ==> i == 0
    requires IsEndpoint(UpdateServer(site, servers[i])) && IsEndpoint(ContentServer(site, servers[i]))
    ensures var r, at := Reply(site, servers, limit).value, 6 + 12 * i;
      && at + 12 <= |r|
      && Decodes(r[at..at + 6], match servers[i].update case Some(e) => e case None => site.defaultUpdate)
      && Decodes(r[at + 6..at + 12], match servers[i].content case Some(e) => e case None => site.defaultContent)
  {
    hide *;
    StandIns(site, servers[i]);
    GroupsSentInOrder(site, servers, limit, i);
    GroupDecodes(site, servers[i]);
    var r, at := Reply(site, servers, limit).value, 6 + 12 * i;
    assert r[at..at + 6] == r[at..at + 12][..6] && r[at + 6..at + 12] == r[at..at + 12][6..];
  }
}
