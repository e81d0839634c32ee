/** In-place replacement of addresses in files: `ip_replacer`, which patches the first
    occurrence, and the passes of `readfile_beta`, which patch all of them.  Bytes
    are written as latin-1 characters. */
module Replacing {
  import opened Results
  import opened Bytes

  // ----- The first occurrence -----

  /** `find`: the first position at which `p` stands in `s`. */
  function Find(s: string, p: string, from: nat): (r: Option<nat>)
    ensures r.Some? ==> from <= r.value && At(s, r.value, p)
    ensures r.Some? ==> forall i :: from <= i < r.value ==> !At(s, i, p)
    ensures r.None? ==> forall i :: from <= i ==> !At(s, i, p)
    decreases |s| - from
  {
    if from + |p| > |s| then None
    else if At(s, from, p) then Some(from)
    else Find(s, p, from + 1)
  }

  function Fill(c: char, n: int): (r: string)
    ensures |r| == if n < 0 then 0 else n
    ensures forall i :: 0 <= i < |r| ==> r[i] == c
  {
    seq(if n < 0 then 0 else n, _ => c)
  }

  /** `ip_replacer` */
  function IpReplacer(file: string, ip: string, serverIp: string): (r: string)
    ensures |r| == |file|
    ensures var loc := Find(file, ip, 0);
      if |serverIp| <= |ip| && loc.Some? then
        At(r, loc.value, serverIp + Fill(0 as char, |ip| - |serverIp|)) &&
        forall j :: 0 <= j < |file| && !(loc.value <= j < loc.value + |ip|) ==> r[j] == file[j]
      else r == file
  {
    if |serverIp| > |ip| then file else
    match Find(file, ip, 0)
    case None => file
    case Some(loc) =>
      var replaceIp := serverIp + Fill(0 as char, |ip| - |serverIp|);
      file[..loc] + replaceIp + file[loc + |ip|..]
  }

  function ReplaceEach(file: string, ips: seq<string>, serverIp: string): string {
    if ips == [] then file
    else IpReplacer(ReplaceEach(file, ips[..|ips| - 1], serverIp), ips[|ips| - 1], serverIp)
  }

  /** The loop of `readchunk_neuter` over all known addresses. */
  method ReplaceAddresses(chunk: string, ips: seq<string>, serverIp: string) returns (r: string)
    ensures r == ReplaceEach(chunk, ips, serverIp)
    ensures |r| == |chunk|
  {
    r := chunk;
    for k := 0 to |ips|
      invariant r == ReplaceEach(chunk, ips[..k], serverIp)
      invariant |r| == |chunk|
    {
      assert ips[..k + 1][..k] == ips[..k];
      r := IpReplacer(r, ips[k], serverIp);
    }
    assert ips[..|ips|] == ips;
  }

  /** Position j is inside the first occurrence of the k-th address when its turn comes. */
  ghost predicate InWindow(file: string, ips: seq<string>, serverIp: string, k: nat, j: nat)
    requires k < |ips|
  {
    var loc := Find(ReplaceEach(file, ips[..k], serverIp), ips[k], 0);
    |serverIp| <= |ips[k]| && loc.Some? && loc.value <= j < loc.value + |ips[k]|
  }

  /** Over any list of addresses the length stays, and a byte that changes lies in
      the first occurrence of one of them. */
  lemma {:induction false} OnlyWindowsChange(file: string, ips: seq<string>, serverIp: string, j: nat)
    ensures |ReplaceEach(file, ips, serverIp)| == |file|
    ensures j < |file| && ReplaceEach(file, ips, serverIp)[j] != file[j] ==>
      exists k :: 0 <= k < |ips| && InWindow(file, ips, serverIp, k, j)
  {
    if ips != [] {
      var n := |ips| - 1;
      var init := ips[..n];
      OnlyWindowsChange(file, init, serverIp, j);
      if j < |file| && ReplaceEach(file, ips, serverIp)[j] != file[j] {
        if ReplaceEach(file, init, serverIp)[j] != file[j] {
          var k :| 0 <= k < n && InWindow(file, init, serverIp, k, j);
          assert init[..k] == ips[..k];
          assert InWindow(file, ips, serverIp, k, j);
        } else {
          assert InWindow(file, ips, serverIp, n, j);
        }
      }
    }
  }

  /** And every address gets its turn: where it first occurs then, the new address
      stands, padded with NULs, if it is no longer. */
  lemma EachAtItsTurn(file: string, ips: seq<string>, serverIp: string, k: nat)
    requires k < |ips|
    ensures var before, after := ReplaceEach(file, ips[..k], serverIp), ReplaceEach(file, ips[..k + 1], serverIp);
      match Find(before, ips[k], 0)
      case Some(i) =>
        if |serverIp| <= |ips[k]|
        then At(after, i, serverIp + Fill(0 as char, |ips[k]| - |serverIp|))
        else after == before
      case None => after == before
    ensures ReplaceEach(file, [], serverIp) == file
  {
    assert ips[..k + 1][..k] == ips[..k] && ips[..k + 1][k] == ips[k];
    var before, after := ReplaceEach(file, ips[..k], serverIp), ReplaceEach(file, ips[..k + 1], serverIp);
    assert after == IpReplacer(before, ips[k], serverIp);
    hide ReplaceEach, IpReplacer;
  }

  // ----- All occurrences -----

  /** `replace`: occurrences from the left, not overlapping. */
  function ReplaceAll(data: string, before: string, after: string): string
    requires before != []
    decreases |data|
  {
    if |data| < |before| then data
    else if before <= data then after + ReplaceAll(data[|before|..], before, after)
    else [data[0]] + ReplaceAll(data[1..], before, after)
  }

  predicate Occurs(data: string, p: string) {
    Find(data, p, 0).Some?
  }

  /** One pass: the new text, padded with spaces to the old one's length. */
  function Pass(data: string, before: string, after: string): string
    requires before != []
  {
    if Occurs(data, before) then ReplaceAll(data, before, after + Fill(' ', |before| - |after|)) else data
  }

  lemma {:induction false} ReplaceAllLength(data: string, before: string, after: string)
    requires before != [] && |after| >= |before|
    ensures |ReplaceAll(data, before, after)| >= |data|
    ensures |after| == |before| ==> |ReplaceAll(data, before, after)| == |data|
    ensures |after| > |before| ==>
      (|ReplaceAll(data, before, after)| == |data| <==> forall i :: 0 <= i ==> !At(data, i, before))
    decreases |data|
  {
    if |data| >= |before| {
      if before <= data {
        ReplaceAllLength(data[|before|..], before, after);
        assert At(data, 0, before);
      } else {
        ReplaceAllLength(data[1..], before, after);
        assert !At(data, 0, before);
        forall i: nat | i > 0
          ensures At(data, i, before) <==> At(data[1..], i - 1, before)
        {
          if i + |before| <= |data| {
            assert data[1..][i - 1..i - 1 + |before|] == data[i..i + |before|];
          }
        }
        forall i: nat | At(data[1..], i, before)
          ensures At(data, i + 1, before)
        {
        }
      }
    }
  }

  /** A pass never shortens the data, and keeps its length exactly when the new text
      is no longer than the old one or the old one does not occur. */
  lemma PassLengthIff(data: string, before: string, after: string)
    requires before != []
    ensures |Pass(data, before, after)| >= |data|
    ensures |Pass(data, before, after)| == |data| <==> |after| <= |before| || !Occurs(data, before)
  {
    ReplaceAllLength(data, before, after + Fill(' ', |before| - |after|));
  }

  /** The patched window position j of the result belongs to, if any. */
  ghost predicate InPatch(data: string, r: string, before: string, after: string, j: nat) {
    exists i :: 0 <= i <= j < i + |before| && At(data, i, before) && At(r, i, after)
  }

  /** What `replace` makes of data in which the old text first stands at `found`: what
      stands before it stays, the new text stands for it, and the rest is treated alike. */
  predicate ReplacedAt(data: string, before: string, after: string, found: Option<nat>)
    requires before != []
  {
    match found
    case Some(i) => i + |before| <= |data| &&
      ReplaceAll(data, before, after) == data[..i] + after + ReplaceAll(data[i + |before|..], before, after)
    case None => ReplaceAll(data, before, after) == data
  }

  /** `replace`, by its meaning. */
  lemma {:induction false} ReplaceAllFirst(data: string, before: string, after: string)
    requires before != []
    ensures ReplacedAt(data, before, after, Find(data, before, 0))
    decreases |data|
  {
    if |data| < |before| {
      assert Find(data, before, 0) == None;
    } else if before <= data {
      FrontReplaced(data, before, after);
    } else {
      ReplaceAllFirst(data[1..], before, after);
      NotInFront(data, before, after);
      FindShifted(data, before, 0);
      hide *;
      match Find(data[1..], before, 0) {
        case Some(i) => LaterFirst(data, before, after, i);
        case None => NoneLater(data, before, after);
      }
    }
  }

  lemma FrontReplaced(data: string, before: string, after: string)
    requires before != [] && before <= data
    ensures Find(data, before, 0) == Some(0) && ReplacedAt(data, before, after, Some(0))
  {
    assert At(data, 0, before) && data[..0] == "";
  }

  lemma NotInFront(data: string, before: string, after: string)
    requires before != [] && |data| >= |before| && !(before <= data)
    ensures Find(data, before, 0) == Find(data, before, 1)
    ensures ReplaceAll(data, before, after) == [data[0]] + ReplaceAll(data[1..], before, after)
  {
    assert !At(data, 0, before);
  }

  lemma LaterFirst(data: string, before: string, after: string, i: nat)
    requires before != [] && data != []
    requires ReplaceAll(data, before, after) == [data[0]] + ReplaceAll(data[1..], before, after)
    requires ReplacedAt(data[1..], before, after, Some(i))
    ensures ReplacedAt(data, before, after, Some(i + 1))
  {
    hide ReplaceAll;
    FirstMoved(data, i, |before|, after);
  }

  lemma NoneLater(data: string, before: string, after: string)
    requires before != [] && data != []
    requires ReplaceAll(data, before, after) == [data[0]] + ReplaceAll(data[1..], before, after)
    requires ReplacedAt(data[1..], before, after, None)
    ensures ReplacedAt(data, before, after, None)
  {
    hide ReplaceAll;
    assert data == [data[0]] + data[1..];
  }

  lemma FirstMoved(data: string, i: nat, n: nat, after: string)
    requires i + n < |data|
    ensures data[1..][i + n..] == data[i + 1 + n..]
    ensures forall rest: string :: [data[0]] + (data[1..][..i] + after + rest) == data[..i + 1] + after + rest
  {
    assert [data[0]] + data[1..][..i] == data[..i + 1];
    forall rest: string
      ensures [data[0]] + (data[1..][..i] + after + rest) == data[..i + 1] + after + rest
    {
      assert [data[0]] + (data[1..][..i] + after + rest) == ([data[0]] + data[1..][..i]) + after + rest;
    }
  }

  /** An occurrence that is not at the front is one in the rest. */
  lemma {:induction false} FindShifted(data: string, p: string, k: nat)
    requires data != "" && p != ""
    ensures Find(data, p, k + 1) == match Find(data[1..], p, k) case Some(i) => Some(i + 1) case None => None
    decreases |data| - k
  {
    if k + 1 + |p| <= |data| {
      assert data[1..][k..k + |p|] == data[k + 1..k + 1 + |p|];
      FindShifted(data, p, k + 1);
    }
  }

  /** With texts of equal length every byte of the result is either the byte that was
      there or part of a new text standing where an old one stood. */
  lemma {:induction false} ReplaceAllFrame(data: string, before: string, after: string, j: nat)
    requires before != [] && |after| == |before| && j < |data|
    ensures var r := ReplaceAll(data, before, after);
      |r| == |data| && (r[j] == data[j] || InPatch(data, r, before, after, j))
    decreases |data|
  {
    ReplaceAllLength(data, before, after);
    var r, n := ReplaceAll(data, before, after), |before|;
    if |data| >= n && before <= data {
      if j < n {
        assert At(data, 0, before) && At(r, 0, after);
      } else {
        ReplaceAllFrame(data[n..], before, after, j - n);
        assert r == after + ReplaceAll(data[n..], before, after);
        FrameShifted(data, r, before, after, n, j, ReplaceAll(data[n..], before, after));
      }
    } else if |data| >= n && j > 0 {
      ReplaceAllFrame(data[1..], before, after, j - 1);
      assert r == [data[0]] + ReplaceAll(data[1..], before, after);
      FrameShifted(data, r, before, after, 1, j, ReplaceAll(data[1..], before, after));
    }
  }

  /** What holds of the tails holds of the whole. */
  lemma FrameShifted(data: string, r: string, before: string, after: string, n: nat, j: nat, rest: string)
    requires before != [] && |after| == |before| && n <= j < |data| == |r|
    requires r[n..] == rest && (rest[j - n] == data[n..][j - n] || InPatch(data[n..], rest, before, after, j - n))
    ensures r[j] == data[j] || InPatch(data, r, before, after, j)
  {
    if rest[j - n] != data[n..][j - n] {
      var i :| 0 <= i <= j - n < i + |before| && At(data[n..], i, before) && At(rest, i, after);
      Shifted(data, n, data[n..], i, before);
      Shifted(r, n, rest, i, after);
    }
  }

  lemma Shifted(s: string, n: nat, tail: string, i: nat, p: string)
    requires n <= |s| && s[n..] == tail && At(tail, i, p)
    ensures At(s, n + i, p)
  {
    assert s[n + i..n + i + |p|] == tail[i..i + |p|];
  }

  // ----- The passes of readfile_beta -----

  const MASTER: seq<string> := [
    "207.173.177.10:27010", "\"hlmaster.valvesoftware.com:27010\"",
    "\"half-life.east.won.net:27010\"", "\"half-life.west.won.net:27010\"",
    "\"207.173.177.10:27010\"", "hlmaster.valvesoftware.com:27010",
    "half-life.east.won.net:27010", "half-life.west.won.net:27010",
    "half-life.central.won.net:27010"]
  const TRACKER: seq<string> := ["\"tracker.valvesoftware.com:1200\"", "\"tracker.valvesoftware.com:1200\""]
  const VALIDATION: seq<string> := [
    "207.173.177.10:7002", "half-life.east.won.net:7002",
    "half-life.west.won.net:7002", "half-life.central.won.net:7002"]
  const SECURE: seq<string> := [
    "\"gridmaster.valvesoftware.com:27012\"", "gridmaster.valvesoftware.com:27012",
    "half-life.speakeasy-nyc.hlauth.net:27012", "half-life.speakeasy-sea.hlauth.net:27012",
    "half-life.speakeasy-chi.hlauth.net:27012"]

  datatype Settings = Settings(publicIp: string, serverIp: string, trackerIp: string, validationPort: string)

  datatype Replacement = Replacement(before: string, after: string)
  type Patch = p: Replacement | p.before != "" witness Replacement("x", "")

  /** Quoted addresses are replaced by the quoted text, others by the bare one. */
  function Patches(olds: seq<string>, quoted: string, bare: string): (r: seq<Patch>)
    requires "" !in olds
    ensures |r| == |olds|
    ensures forall i :: 0 <= i < |r| ==> r[i] == Replacement(olds[i], if "\"" <= olds[i] then quoted else bare)
  {
    seq(|olds|, i requires 0 <= i < |olds| => Replacement(olds[i], if "\"" <= olds[i] then quoted else bare))
  }

  function Address(c: Settings, external: bool): string {
    if external then c.publicIp else c.serverIp
  }

  function TrackerAddress(c: Settings, external: bool): string {
    if external && c.trackerIp != "" then c.trackerIp else Address(c, external)
  }

  function Master(c: Settings, external: bool): seq<Patch> {
    var ip := Address(c, external);
    Patches(MASTER, "\"" + ip + ":27010\"", ip + ":27010")
  }

  function Tracker(c: Settings, external: bool): seq<Patch> {
    var text := "\"" + TrackerAddress(c, external) + ":1200\"";
    Patches(TRACKER, text, text)
  }

  function Validation(c: Settings, external: bool): seq<Patch> {
    var text := Address(c, external) + ":" + c.validationPort;
    Patches(VALIDATION, text, text)
  }

  function Secure(c: Settings, external: bool): seq<Patch> {
    var text := Address(c, external) + ":27012";
    Patches(SECURE, text, text)
  }

  /** The four lists in the order of their passes. */
  function AllPatches(c: Settings, external: bool): seq<Patch> {
    Master(c, external) + Tracker(c, external) + Validation(c, external) + Secure(c, external)
  }

  function ApplyAll(data: string, ps: seq<Patch>): string {
    if ps == [] then data else
      var p := ps[|ps| - 1];
      Pass(ApplyAll(data, ps[..|ps| - 1]), p.before, p.after)
  }

  lemma {:induction false} ApplyBoth(data: string, ps: seq<Patch>, qs: seq<Patch>)
    ensures ApplyAll(data, ps + qs) == ApplyAll(ApplyAll(data, ps), qs)
  {
    if qs == [] {
      assert ps + qs == ps;
    } else {
      ApplyBoth(data, ps, qs[..|qs| - 1]);
      assert (ps + qs)[..|ps + qs| - 1] == ps + qs[..|qs| - 1];
    }
  }

  /** One of the four loops. */
  method ReplaceStrings(data: string, ps: seq<Patch>) returns (r: string)
    ensures r == ApplyAll(data, ps)
  {
    r := data;
    for k := 0 to |ps|
      invariant r == ApplyAll(data, ps[..k])
    {
      assert ps[..k + 1][..k] == ps[..k];
      var p := ps[k];
      if Occurs(r, p.before) {
        var diff := |p.before| as int - |p.after|;
        r := ReplaceAll(r, p.before, p.after + Fill(' ', diff));
      }
    }
    assert ps[..|ps|] == ps;
  }

  /** `readfile_beta` on the bytes it read */
  method ReadFileBeta(data: string, c: Settings, external: bool) returns (r: string)
    ensures r == ApplyAll(data, AllPatches(c, external))
  {
    hide Master, Tracker, Validation, Secure, ApplyAll;
    r := ReplaceStrings(data, Master(c, external));
    r := ReplaceStrings(r, Tracker(c, external));
    r := ReplaceStrings(r, Validation(c, external));
    r := ReplaceStrings(r, Secure(c, external));
    var m, t, v := Master(c, external), Tracker(c, external), Validation(c, external);
    ApplyBoth(data, m, t);
    ApplyBoth(data, m + t, v);
    ApplyBoth(data, m + t + v, Secure(c, external));
  }

  /** Whether the k-th pass finds its text only if its replacement fits. */
  predicate Fits(data: string, ps: seq<Patch>, k: nat)
    requires k < |ps|
  {
    Occurs(ApplyAll(data, ps[..k]), ps[k].before) ==> |ps[k].after| <= |ps[k].before|
  }

  ghost predicate AllFit(data: string, ps: seq<Patch>) {
    forall k :: 0 <= k < |ps| ==> Fits(data, ps, k)
  }

  /** Any passes, one after the other: the data never gets shorter, and keeps its
      length exactly when each pass that finds its text has one that fits. */
  lemma {:induction false} PassesLengthIff(data: string, ps: seq<Patch>)
    ensures |ApplyAll(data, ps)| >= |data|
    ensures |ApplyAll(data, ps)| == |data| <==> AllFit(data, ps)
  {
    hide Occurs, Pass;
    if ps != [] {
      var n := |ps| - 1;
      var init := ps[..n];
      PassesLengthIff(data, init);
      PassLengthIff(ApplyAll(data, init), ps[n].before, ps[n].after);
      forall k | 0 <= k < n ensures Fits(data, ps, k) <==> Fits(data, init, k) {
        assert init[..k] == ps[..k];
      }
      assert Fits(data, ps, n) <==> (Occurs(ApplyAll(data, init), ps[n].before) ==> |ps[n].after| <= |ps[n].before|);
      if AllFit(data, ps) {
        assert forall k :: 0 <= k < n ==> Fits(data, ps, k);
        assert Fits(data, ps, n);
      }
    }
  }

  /** The shortest texts of each list. */
  lemma ListLengths()
    ensures forall i :: 0 <= i < |MASTER| ==> |MASTER[i]| >= if "\"" <= MASTER[i] then 22 else 20
    ensures forall i :: 0 <= i < |TRACKER| ==> |TRACKER[i]| >= 32
    ensures forall i :: 0 <= i < |VALIDATION| ==> |VALIDATION[i]| >= 19
    ensures forall i :: 0 <= i < |SECURE| ==> |SECURE[i]| >= 34
  {
    assert !("\"" <= MASTER[0]) by {
      assert MASTER[0][0] == '2' && "\""[0] == '\"';
    }
  }

  /** A new text is the old one with the address in place of the host: quotes stay, and
      so do the last `n` characters, from the colon on. */
  predicate Readdressed(p: Patch, ip: string, n: nat) {
    && 0 < n <= |p.before| && p.before[|p.before| - n] == ':'
    && p.after == (if p.before[0] == '"' then "\"" else "") + ip + p.before[|p.before| - n..]
  }

  lemma MasterTexts(c: Settings, external: bool)
    ensures var ip, ps := Address(c, external), Master(c, external);
      |ps| == 9 && forall i :: 0 <= i < 9 ==> Readdressed(ps[i], ip, if ps[i].before[0] == '"' then 7 else 6)
  {
    forall i | 0 <= i < 9
      ensures var p := Master(c, external)[i];
        Readdressed(p, Address(c, external), if p.before[0] == '"' then 7 else 6)
    {
      MasterText(c, external, i);
    }
    hide Readdressed, Address;
  }

  lemma MasterText(c: Settings, external: bool, i: nat)
    requires i < 9
    ensures |Master(c, external)| == 9
    ensures var p := Master(c, external)[i];
      Readdressed(p, Address(c, external), if p.before[0] == '"' then 7 else 6)
  {
    MasterEnd(i);
    Quoted(MASTER[i]);
    AddressBetween(Address(c, external));
    hide MASTER;
  }

  lemma AddressBetween(ip: string)
    ensures "\"" + ip + ":27010\"" == "\"" + ip + (":27010\"") && "" + ip == ip
  {
  }

  lemma TrackerTexts(c: Settings, external: bool)
    ensures var ip, ps := TrackerAddress(c, external), Tracker(c, external);
      |ps| == 2 && forall i :: 0 <= i < 2 ==> Readdressed(ps[i], ip, 6)
  {
    var ip, ps := TrackerAddress(c, external), Tracker(c, external);
    forall i | 0 <= i < 2 ensures Readdressed(ps[i], ip, 6) {
      TrackerEnd(i);
      hide TRACKER;
    }
  }

  lemma SecureTexts(c: Settings, external: bool)
    ensures var ip, ps := Address(c, external), Secure(c, external);
      && |ps| == 5 && ps[0].before[0] == '"' && ps[0].after == ip + ":27012"
      && forall i :: 1 <= i < 5 ==> Readdressed(ps[i], ip, 6)
  {
    var ip, ps := Address(c, external), Secure(c, external);
    SecureEnd(0);
    forall i | 1 <= i < 5 ensures Readdressed(ps[i], ip, 6) {
      SecureEnd(i);
      assert "" + ip == ip;
      hide SECURE;
    }
  }

  /** External clients get the public address, others the server's; for the tracker,
      externally, one of its own if there is one.  Quotes and ports stay, except that
      the validation server has the port that is configured, and that the quoted
      address of the last list loses its quotes. */
  lemma NewTexts(c: Settings, external: bool)
    ensures var ps := AllPatches(c, external);
      var ip := if external then c.publicIp else c.serverIp;
      var tracker := if !external then c.serverIp else if c.trackerIp == "" then c.publicIp else c.trackerIp;
      && |ps| == 20
      && (forall i :: 0 <= i < 9 ==> Readdressed(ps[i], ip, if ps[i].before[0] == '"' then 7 else 6))
      && (forall i :: 9 <= i < 11 ==> Readdressed(ps[i], tracker, 6))
      && (forall i :: 11 <= i < 15 ==> ps[i].after == ip + ":" + c.validationPort)
      && (forall i :: 16 <= i < 20 ==> Readdressed(ps[i], ip, 6))
      && ps[15].before[0] == '"' && ps[15].after == ip + ":27012"
  {
    var m, t, v, s := Master(c, external), Tracker(c, external), Validation(c, external), Secure(c, external);
    MasterTexts(c, external);
    TrackerTexts(c, external);
    SecureTexts(c, external);
    assert forall i :: 0 <= i < 4 ==> v[i].after == Address(c, external) + ":" + c.validationPort;
    hide Readdressed, Master, Tracker, Validation, Secure;
    var ps := AllPatches(c, external);
    assert forall i :: 0 <= i < 9 ==> ps[i] == m[i];
    assert forall i :: 9 <= i < 11 ==> ps[i] == t[i - 9];
    assert forall i :: 11 <= i < 15 ==> ps[i] == v[i - 11];
    assert forall i :: 15 <= i < 20 ==> ps[i] == s[i - 15];
  }

  lemma Quoted(s: string)
    requires s != ""
    ensures "\"" <= s <==> s[0] == '"'
  {
  }

  lemma MasterEnd(i: nat)
    requires i < 9
    ensures var s := MASTER[i];
      if s[0] == '"' then |s| >= 7 && s[|s| - 7..] == ":27010\"" else |s| >= 6 && s[|s| - 6..] == ":27010"
  {
  }

  lemma TrackerEnd(i: nat)
    requires i < 2
    ensures var s := TRACKER[i]; s[0] == '"' && |s| >= 6 && s[|s| - 6..] == ":1200\""
  {
  }

  lemma SecureEnd(i: nat)
    requires i < 5
    ensures var s := SECURE[i];
      if i == 0 then s[0] == '"' else s[0] != '"' && |s| >= 6 && s[|s| - 6..] == ":27012"
  {
  }

  /** For the lists in the code: texts that fit wherever they are put. */
  predicate AddressesFit(c: Settings, external: bool) {
    && |Address(c, external)| <= 14
    && |TrackerAddress(c, external)| <= 25
    && |Address(c, external)| + |c.validationPort| <= 18
  }

  /** Addresses of at most 14 characters, a tracker's of at most 25, and one that
      leaves room for the validation port, are exactly those with which no file
      changes length. */
  lemma NoFileChangesLengthIff(c: Settings, external: bool)
    ensures AddressesFit(c, external) <==> forall data :: |ApplyAll(data, AllPatches(c, external))| == |data|
  {
    if AddressesFit(c, external) {
      forall data ensures |ApplyAll(data, AllPatches(c, external))| == |data| {
        ShortAddressesKeepLength(data, c, external);
      }
    } else {
      var data := LongAddressesLengthen(c, external);
    }
  }

  lemma ShortAddressesKeepLength(data: string, c: Settings, external: bool)
    requires AddressesFit(c, external)
    ensures |ApplyAll(data, AllPatches(c, external))| == |data|
  {
    ListLengths();
    hide Occurs, MASTER, TRACKER, VALIDATION, SECURE, ApplyAll;
    var ps := AllPatches(c, external);
    assert forall k :: 0 <= k < |ps| ==> |ps[k].after| <= |ps[k].before|;
    PassesLengthIff(data, ps);
  }

  /** A file that holds nothing but the first text whose replacement does not fit. */
  lemma LongAddressesLengthen(c: Settings, external: bool) returns (data: string)
    requires !AddressesFit(c, external)
    ensures |ApplyAll(data, AllPatches(c, external))| > |data|
  {
    var ps := AllPatches(c, external);
    var k := if |Address(c, external)| > 14 then 0 else if |TrackerAddress(c, external)| > 25 then 9 else 11;
    data := if k == 0 then MASTER[0] else if k == 9 then TRACKER[0] else VALIDATION[0];
    PatchPlaces(c, external);
    assert data == ps[k].before && |ps[k].after| > |ps[k].before|;
    NotFoundBefore(c, external, k);
    NoneFound(data, ps[..k]);
    OccursInItself(data);
    hide Occurs, MASTER, TRACKER, VALIDATION, SECURE, ApplyAll, AllPatches;
    assert !Fits(data, ps, k);
    PassesLengthIff(data, ps);
  }

  lemma PatchPlaces(c: Settings, external: bool)
    ensures var ps := AllPatches(c, external);
      && |ps| == 20
      && (forall i :: 0 <= i < 9 ==> ps[i].before == MASTER[i])
      && (forall i :: 9 <= i < 11 ==> ps[i].before == TRACKER[i - 9])
      && |ps[0].after| == |Address(c, external)| + 6 && ps[9].after == ps[10].after
      && |ps[9].after| == |TrackerAddress(c, external)| + 7
      && ps[11].before == VALIDATION[0]
      && |ps[11].after| == |Address(c, external)| + 1 + |c.validationPort|
  {
    ListLengths();
    assert !("\"" <= MASTER[0]) by {
      assert MASTER[0][0] == '2' && "\""[0] == '\"';
    }
  }

  lemma OccursInItself(s: string)
    ensures Occurs(s, s)
  {
    assert At(s, 0, s);
  }

  /** No text from an earlier place occurs in the one at place 0, 9 or 11. */
  lemma NotFoundBefore(c: Settings, external: bool, k: nat)
    requires k == 0 || k == 9 || k == 11
    ensures var ps := AllPatches(c, external);
      |ps| == 20 && forall i :: 0 <= i < k ==> !Occurs(ps[k].before, ps[i].before)
  {
    PatchPlaces(c, external);
    ListLengths();
    var ps := AllPatches(c, external);
    forall i | 0 <= i < k ensures !Occurs(ps[k].before, ps[i].before) {
      if k == 9 {
        SevenInMaster(i);
        NoSeven(ps[k].before, ps[i].before);
      } else {
        assert |ps[i].before| > |ps[k].before|;
      }
    }
  }

  lemma SevenInMaster(i: nat)
    requires i < 9
    ensures '7' in MASTER[i]
    ensures '7' !in TRACKER[0]
  {
  }

  lemma NoSeven(data: string, p: string)
    requires '7' !in data && '7' in p
    ensures !Occurs(data, p)
  {
  }

  /** Passes whose texts do not occur leave the data alone. */
  lemma {:induction false} NoneFound(data: string, ps: seq<Patch>)
    requires forall i :: 0 <= i < |ps| ==> !Occurs(data, ps[i].before)
    ensures ApplyAll(data, ps) == data
  {
    if ps != [] {
      NoneFound(data, ps[..|ps| - 1]);
    }
  }
}
