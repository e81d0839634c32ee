/** Saving a value in `emulator.ini`: the first line that assigns the key, its old
    name, or the commented-out key is overwritten; otherwise a line is added.  Text
    is as Python's text layer gives it, with '\n' as the only line end. */
module ConfigFile {
  import opened Results

  // ----- Lines -----

  function IndexOfNewline(t: string): (r: Option<nat>)
    ensures r.None? <==> '\n' !in t
    ensures r.Some? ==> r.value < |t| && t[r.value] == '\n' && '\n' !in t[..r.value]
  {
    if t == "" then None
    else if t[0] == '\n' then Some(0)
    else match IndexOfNewline(t[1..])
      case None => None
      case Some(k) =>
        assert t[..k + 1] == [t[0]] + t[1..][..k];
        Some(k + 1)
  }

  /** `readlines`: line ends are kept. */
  function Lines(t: string): seq<string>
    decreases |t|
  {
    if t == "" then [] else
      match IndexOfNewline(t)
      case None => [t]
      case Some(k) => [t[..k + 1]] + Lines(t[k + 1..])
  }

  /** `writelines` */
  function Join(lines: seq<string>): string {
    if lines == [] then "" else lines[0] + Join(lines[1..])
  }

  predicate Ended(t: string) {
    t == "" || t[|t| - 1] == '\n'
  }

  /** One line with its line end. */
  predicate IsLine(l: string) {
    l != "" && l[|l| - 1] == '\n' && '\n' !in l[..|l| - 1]
  }

  ghost predicate AllLines(lines: seq<string>) {
    forall i :: 0 <= i < |lines| ==> IsLine(lines[i])
  }

  lemma {:induction false} JoinLines(t: string)
    ensures Join(Lines(t)) == t
    decreases |t|
  {
    if t != "" && IndexOfNewline(t).Some? {
      var k := IndexOfNewline(t).value;
      JoinLines(t[k + 1..]);
      LinesInTwo(t, k);
      JoinFirst(t[..k + 1], Lines(t[k + 1..]));
      TextInTwo(t, k + 1);
      hide *;
    }
  }

  lemma LinesInTwo(t: string, k: nat)
    requires IndexOfNewline(t) == Some(k)
    ensures Lines(t) == [t[..k + 1]] + Lines(t[k + 1..])
  {
    hide IndexOfNewline;
  }

  lemma JoinFirst(l: string, lines: seq<string>)
    ensures Join([l] + lines) == l + Join(lines)
  {
    assert ([l] + lines)[1..] == lines;
  }

  lemma TextInTwo(t: string, k: nat)
    requires k <= |t|
    ensures t[..k] + t[k..] == t
  {
  }

  lemma {:induction false} JoinAppend(a: seq<string>, b: seq<string>)
    ensures Join(a + b) == Join(a) + Join(b)
  {
    if a == [] {
      assert a + b == b;
    } else {
      JoinAppend(a[1..], b);
      assert (a + b)[1..] == a[1..] + b;
      Associate(a[0], Join(a[1..]), Join(b));
    }
  }

  /** Every line but the last has its line end, and no other inside. */
  lemma {:induction false} LinesShape(t: string)
    ensures forall i :: 0 <= i < |Lines(t)| ==>
      IsLine(Lines(t)[i]) || (i == |Lines(t)| - 1 && Lines(t)[i] != "" && '\n' !in Lines(t)[i])
    ensures Ended(t) ==> AllLines(Lines(t))
    decreases |t|
  {
    if t != "" && IndexOfNewline(t).Some? {
      var k := IndexOfNewline(t).value;
      LinesShape(t[k + 1..]);
      assert t[..k + 1][..k] == t[..k];
    }
  }

  lemma LinesOfFirst(l: string, rest: string)
    requires IsLine(l)
    ensures Lines(l + rest) == [l] + Lines(rest)
  {
    var t := l + rest;
    assert t[|l| - 1] == '\n' && t[..|l| - 1] == l[..|l| - 1];
    FirstNewline(t, |l| - 1);
    assert t[..|l|] == l && t[|l|..] == rest;
  }

  lemma NoneBefore(t: string, k: nat)
    requires k <= |t| && '\n' !in t[..k]
    ensures forall i :: 0 <= i < k ==> t[i] != '\n'
  {
    assert forall i :: 0 <= i < k ==> t[i] == t[..k][i];
  }

  lemma FirstNewline(t: string, k: nat)
    requires k < |t| && t[k] == '\n' && '\n' !in t[..k]
    ensures IndexOfNewline(t) == Some(k)
  {
    NoneBefore(t, k);
    NoneBefore(t, IndexOfNewline(t).value);
  }

  lemma {:induction false} LinesOfJoin(lines: seq<string>, rest: string)
    requires AllLines(lines)
    ensures Lines(Join(lines) + rest) == lines + Lines(rest)
  {
    hide Lines, IsLine;
    if lines == [] {
      assert Join(lines) + rest == rest;
    } else {
      LinesOfJoin(lines[1..], rest);
      LinesOfFirst(lines[0], Join(lines[1..]) + rest);
      assert Join(lines) + rest == lines[0] + (Join(lines[1..]) + rest);
    }
  }

  // ----- The text layer -----

  /** A text written to a file, as the next read gives it: every line end comes back
      as '\n'.  With `crlf`, as on Windows, '\n' is written as two characters. */
  function Seen(t: string, crlf: bool): string {
    if t == "" then ""
    else if t[0] != '\r' then [t[0]] + Seen(t[1..], crlf)
    else if !crlf && |t| > 1 && t[1] == '\n' then Seen(t[1..], crlf)
    else "\n" + Seen(t[1..], crlf)
  }

  lemma {:induction false} SeenPlain(t: string, crlf: bool)
    requires '\r' !in t
    ensures Seen(t, crlf) == t
  {
    if t != "" {
      assert t[0] != '\r';
      SeenPlain(t[1..], crlf);
      assert t == [t[0]] + t[1..];
    }
  }

  lemma {:induction false} SeenAppend(a: string, b: string, crlf: bool)
    requires a == "" || a[|a| - 1] != '\r'
    ensures Seen(a + b, crlf) == Seen(a, crlf) + Seen(b, crlf)
  {
    if a == "" {
      assert a + b == b;
    } else {
      SeenAppend(a[1..], b, crlf);
      assert (a + b)[1..] == a[1..] + b && (a + b)[0] == a[0];
      if |a| > 1 {
        assert (a + b)[1] == a[1];
      }
    }
  }

  lemma {:induction false} SeenEnds(t: string, crlf: bool)
    ensures var r := Seen(t + "\n", crlf); r != "" && r[|r| - 1] == '\n'
  {
    if t == "" {
      assert t + "\n" == "\n" && "\n"[1..] == "" && "\n"[0] == '\n';
    } else {
      SeenEnds(t[1..], crlf);
      assert (t + "\n")[1..] == t[1..] + "\n";
    }
  }

  predicate NoLineEnd(t: string) {
    '\n' !in t && '\r' !in t
  }

  /** A text that stays on one line: without line ends, save that a carriage return
      at the very end goes into the line end where that is not one already. */
  predicate StaysOneLine(t: string, crlf: bool) {
    NoLineEnd(t) || (!crlf && t != "" && t[|t| - 1] == '\r' && NoLineEnd(t[..|t| - 1]))
  }

  lemma SeenReturn()
    ensures Seen("\r\n", false) == "\n"
  {
    assert "\r\n"[1..] == "\n" && "\r\n"[0] == '\r' && "\r\n"[1] == '\n';
    assert "\n"[1..] == "" && "\n"[0] == '\n';
    assert Seen("", false) == "" && Seen("\n", false) == "\n";
  }

  lemma {:induction false} SeenLineIff(t: string, crlf: bool)
    ensures IsLine(Seen(t + "\n", crlf)) <==> StaysOneLine(t, crlf)
  {
    SeenEnds(t, crlf);
    if t == "" {
      assert t + "\n" == "\n" && "\n"[1..] == "" && "\n"[0] == '\n';
    } else if t == "\r" && !crlf {
      SeenReturn();
      assert t + "\n" == "\r\n" && t[..0] == "" && NoLineEnd(t[..0]);
      assert "\n"[..0] == "";
    } else {
      SeenLineIff(t[1..], crlf);
      SeenEnds(t[1..], crlf);
      SeenFirst(t, crlf);
      StaysFirst(t, crlf);
      hide Seen, StaysOneLine;
      if t[0] != '\r' {
        var r, r' := Seen(t + "\n", crlf), Seen(t[1..] + "\n", crlf);
        assert r[..|r| - 1] == [t[0]] + r'[..|r'| - 1];
      }
    }
  }

  /** The first character goes through, or is a line end of its own or of the next. */
  lemma SeenFirst(t: string, crlf: bool)
    requires t != "" && !(t == "\r" && !crlf)
    ensures var r, r' := Seen(t + "\n", crlf), Seen(t[1..] + "\n", crlf);
      if t[0] != '\r' then r == [t[0]] + r' else !IsLine(r)
  {
    var s := t + "\n";
    assert s[1..] == t[1..] + "\n" && s[0] == t[0];
    SeenEnds(t[1..], crlf);
    if t[0] == '\r' {
      if !crlf && s[1] == '\n' {
        assert t[1] == '\n' && t[1..] == "\n" + t[2..] && t[1..] + "\n" == "\n" + (t[2..] + "\n");
        SeenEnds(t[2..], crlf);
        TwoLineEnds(Seen(t[2..] + "\n", crlf));
      } else {
        TwoLineEnds(Seen(t[1..] + "\n", crlf));
      }
    }
  }

  lemma TwoLineEnds(r: string)
    requires r != ""
    ensures !IsLine("\n" + r)
  {
    var s := "\n" + r;
    assert s[..|s| - 1][0] == '\n';
  }

  lemma StaysFirst(t: string, crlf: bool)
    requires t != "" && !(t == "\r" && !crlf)
    ensures StaysOneLine(t, crlf) <==> t[0] != '\n' && t[0] != '\r' && StaysOneLine(t[1..], crlf)
  {
    assert t == [t[0]] + t[1..];
    if |t| > 1 {
      assert t[..|t| - 1] == [t[0]] + t[1..][..|t| - 2];
    } else {
      assert t[..0] == "" && t[1..] == "";
    }
  }

  // ----- Matching a line -----

  /** `str.isspace`, and `\s` in a regular expression. */
  predicate IsSpace(c: char) {
    var n := c as int;
    || n == 32 || 9 <= n <= 13 || 28 <= n <= 31 || n == 0x85 || n == 0xa0
    || n == 0x1680 || 0x2000 <= n <= 0x200a || n == 0x2028 || n == 0x2029 || n == 0x202f || n == 0x205f || n == 0x3000
  }

  /** The characters themselves, all 29 of them. */
  lemma SpacesAre(c: char)
    ensures IsSpace(c) <==> c as int in [
      9, 10, 11, 12, 13, 28, 29, 30, 31, 32, 133, 160, 5760, 8192, 8193, 8194, 8195, 8196, 8197, 8198, 8199, 8200,
      8201, 8202, 8232, 8233, 8239, 8287, 12288]
  {
  }

  /** `lstrip` */
  function SkipSpace(s: string): string {
    if s != "" && IsSpace(s[0]) then SkipSpace(s[1..]) else s
  }

  /** The regular expression: the key at the start, white space, an equals sign. */
  predicate StartsAssignment(s: string, key: string) {
    key <= s && "=" <= SkipSpace(s[|key|..])
  }

  /** The same after any part of the leading white space. */
  predicate AssignsAfterSpace(s: string, key: string) {
    StartsAssignment(s, key) || (s != "" && IsSpace(s[0]) && AssignsAfterSpace(s[1..], key))
  }

  predicate IsKeyLine(line: string, key: string) {
    StartsAssignment(SkipSpace(line), key)
  }

  predicate IsCommentedKey(line: string, key: string) {
    var s := SkipSpace(line);
    ";" <= s && AssignsAfterSpace(s[1..], key)
  }

  predicate Matches(line: string, key: string, oldKey: Option<string>) {
    || (oldKey.Some? && oldKey.value != "" && IsKeyLine(line, oldKey.value))
    || IsKeyLine(line, key) || IsCommentedKey(line, key)
  }

  // What the regular expressions match, written out.

  ghost predicate AllSpaces(s: string) {
    forall i :: 0 <= i < |s| ==> IsSpace(s[i])
  }

  /** White space, the key, white space, an equals sign. */
  ghost predicate KeyForm(line: string, key: string) {
    exists a, b, rest :: AllSpaces(a) && AllSpaces(b) && line == a + (key + (b + ("=" + rest)))
  }

  /** The same behind white space and a semicolon. */
  ghost predicate CommentedForm(line: string, key: string) {
    exists a, b :: CommentParts(line, key, a, b)
  }

  ghost predicate CommentParts(line: string, key: string, a: string, b: string) {
    AllSpaces(a) && KeyForm(b, key) && line == a + (";" + b)
  }

  lemma {:induction false} SkipSpaceParts(s: string)
    ensures |SkipSpace(s)| <= |s| && AllSpaces(s[..|s| - |SkipSpace(s)|])
    ensures s == s[..|s| - |SkipSpace(s)|] + SkipSpace(s)
    ensures SkipSpace(s) == "" || !IsSpace(SkipSpace(s)[0])
  {
    if s != "" && IsSpace(s[0]) {
      SkipSpaceParts(s[1..]);
      SpaceInFront(s, SkipSpace(s[1..]));
    } else {
      assert s[..0] == "" && SkipSpace(s) == s;
    }
  }

  lemma SpaceInFront(s: string, t: string)
    requires s != "" && IsSpace(s[0]) && |t| < |s|
    requires AllSpaces(s[1..][..|s| - 1 - |t|]) && s[1..] == s[1..][..|s| - 1 - |t|] + t
    ensures AllSpaces(s[..|s| - |t|]) && s == s[..|s| - |t|] + t
  {
    hide IsSpace;
    assert s[..|s| - |t|] == [s[0]] + s[1..][..|s| - 1 - |t|];
  }

  lemma {:induction false} SkipSpaces(a: string, rest: string)
    requires AllSpaces(a)
    ensures SkipSpace(a + rest) == SkipSpace(rest)
  {
    if a == "" {
      assert a + rest == rest;
    } else {
      assert (a + rest)[1..] == a[1..] + rest && (a + rest)[0] == a[0];
      SkipSpaces(a[1..], rest);
    }
  }

  lemma StartsIff(s: string, key: string)
    ensures StartsAssignment(s, key) <==> exists b, rest :: AllSpaces(b) && s == key + (b + ("=" + rest))
  {
    if StartsAssignment(s, key) {
      var t := s[|key|..];
      SkipSpaceParts(t);
      var b, u := t[..|t| - |SkipSpace(t)|], SkipSpace(t);
      assert u == "=" + u[1..] && t == b + u;
      assert s == key + (b + ("=" + u[1..]));
    }
    if b, rest :| AllSpaces(b) && s == key + (b + ("=" + rest)) {
      assert s[|key|..] == b + ("=" + rest);
      SkipSpaces(b, "=" + rest);
      assert ("=" + rest)[0] == '=';
    }
  }

  /** A line assigns a key, itself free of space in front, exactly if it has the form. */
  lemma KeyLineIff(line: string, key: string)
    requires key != "" && !IsSpace(key[0])
    ensures IsKeyLine(line, key) <==> KeyForm(line, key)
  {
    StartsIff(SkipSpace(line), key);
    SkipSpaceParts(line);
    if IsKeyLine(line, key) {
      var b, rest :| AllSpaces(b) && SkipSpace(line) == key + (b + ("=" + rest));
      assert line == line[..|line| - |SkipSpace(line)|] + (key + (b + ("=" + rest)));
    }
    if KeyForm(line, key) {
      var a, b, rest :| AllSpaces(a) && AllSpaces(b) && line == a + (key + (b + ("=" + rest)));
      SkipSpaces(a, key + (b + ("=" + rest)));
      assert (key + (b + ("=" + rest)))[0] == key[0];
    }
  }

  lemma {:induction false} AssignsAfterSpaceIff(s: string, key: string)
    requires key != "" && !IsSpace(key[0])
    ensures AssignsAfterSpace(s, key) <==> IsKeyLine(s, key)
  {
    if s != "" && IsSpace(s[0]) {
      AssignsAfterSpaceIff(s[1..], key);
    }
  }

  /** The three kinds of lines that are overwritten, and no others. */
  lemma MatchesIff(line: string, key: string, oldKey: Option<string>)
    requires key != "" && !IsSpace(key[0])
    requires oldKey.Some? && oldKey.value != "" ==> !IsSpace(oldKey.value[0])
    ensures Matches(line, key, oldKey) <==>
      || (oldKey.Some? && oldKey.value != "" && KeyForm(line, oldKey.value))
      || KeyForm(line, key) || CommentedForm(line, key)
  {
    KeyLineIff(line, key);
    if oldKey.Some? && oldKey.value != "" {
      KeyLineIff(line, oldKey.value);
    }
    CommentedIff(line, key);
    hide IsKeyLine, KeyForm, IsCommentedKey, CommentedForm;
  }

  lemma CommentedIff(line: string, key: string)
    requires key != "" && !IsSpace(key[0])
    ensures IsCommentedKey(line, key) <==> CommentedForm(line, key)
  {
    if IsCommentedKey(line, key) {
      CommentSplits(line, key);
    }
    forall a, b | CommentParts(line, key, a, b) ensures IsCommentedKey(line, key) {
      CommentJoins(line, key, a, b);
    }
    hide IsCommentedKey, CommentParts;
  }

  lemma CommentSplits(line: string, key: string)
    requires key != "" && !IsSpace(key[0]) && IsCommentedKey(line, key)
    ensures CommentedForm(line, key)
  {
    var t := SkipSpace(line);
    SkipSpaceParts(line);
    AssignsAfterSpaceIff(t[1..], key);
    KeyLineIff(t[1..], key);
    hide SkipSpace, IsKeyLine, AssignsAfterSpace, AllSpaces, KeyForm;
    assert t == ";" + t[1..];
    assert CommentParts(line, key, line[..|line| - |t|], t[1..]);
  }

  lemma CommentJoins(line: string, key: string, a: string, b: string)
    requires key != "" && !IsSpace(key[0]) && CommentParts(line, key, a, b)
    ensures IsCommentedKey(line, key)
  {
    SkipSpaces(a, ";" + b);
    assert (";" + b)[0] == ';' && (";" + b)[1..] == b && SkipSpace(";" + b) == ";" + b;
    AssignsAfterSpaceIff(b, key);
    KeyLineIff(b, key);
    hide KeyForm, IsKeyLine, AssignsAfterSpace, AllSpaces;
  }

  // ----- Saving -----

  /** The line a save writes, as the next read of the file sees it. */
  function NewLine(key: string, value: string, crlf: bool): string {
    Seen(key + "=" + value + "\n", crlf)
  }

  function FirstMatch(lines: seq<string>, key: string, oldKey: Option<string>): (r: Option<nat>)
    ensures r.Some? ==> r.value < |lines| && Matches(lines[r.value], key, oldKey)
    ensures r.Some? ==> forall i :: 0 <= i < r.value ==> !Matches(lines[i], key, oldKey)
    ensures r.None? ==> NoneMatch(lines, key, oldKey)
  {
    if lines == [] then None
    else if Matches(lines[0], key, oldKey) then Some(0)
    else match FirstMatch(lines[1..], key, oldKey)
      case None => None
      case Some(k) => Some(k + 1)
  }

  /** `line[-1:]` */
  function LastChar(line: string): string {
    if line == "" then "" else [line[|line| - 1]]
  }

  /** The last line gets a line end if it has none. */
  function Terminated(lines: seq<string>): (r: seq<string>)
    ensures |r| == |lines|
    ensures forall i :: 0 <= i < |lines| - 1 ==> r[i] == lines[i]
  {
    if lines == [] || "\n" == LastChar(lines[|lines| - 1]) then lines
    else lines[|lines| - 1 := lines[|lines| - 1] + "\n"]
  }

  function Edited(lines: seq<string>, key: string, value: string, oldKey: Option<string>, crlf: bool): seq<string> {
    match FirstMatch(lines, key, oldKey)
    case Some(i) => Terminated(lines[i := NewLine(key, value, crlf)])
    case None => Terminated(lines) + [NewLine(key, value, crlf)]
  }

  function Save(text: string, key: string, value: string, oldKey: Option<string>, crlf: bool): string {
    Join(Edited(Lines(text), key, value, oldKey, crlf))
  }

  /** `save_config_value`: from the file's text to the text the next read sees. */
  method SaveConfigValue(text: string, key: string, value: string, oldKey: Option<string>, crlf: bool)
    returns (seen: string)
    requires '\r' !in text
    ensures seen == Save(text, key, value, oldKey, crlf)
  {
    hide Matches, Join, Lines, Seen;
    var lines := Lines(text);
    ghost var before := lines;
    var keyExists := false;
    var i := 0;
    while i < |lines|
      invariant 0 <= i <= |lines| && lines == before && !keyExists
      invariant forall j :: 0 <= j < i ==> !Matches(lines[j], key, oldKey)
    {
      if Matches(lines[i], key, oldKey) {
        lines := lines[i := key + "=" + value + "\n"];
        keyExists := true;
        break;
      }
      i := i + 1;
    }
    if lines != [] {
      var lastchar := LastChar(lines[|lines| - 1]);
      if lastchar != "\n" {
        lines := lines[|lines| - 1 := lines[|lines| - 1] + "\n"];
      }
    }
    if !keyExists {
      lines := lines + [key + "=" + value + "\n"];
    }
    assert lines == Raw(Lines(text), key, value, oldKey);
    RawSeen(text, key, value, oldKey, crlf);
    seen := Seen(Join(lines), crlf);
  }

  /** The lines written, before the text layer. */
  function Raw(lines: seq<string>, key: string, value: string, oldKey: Option<string>): seq<string> {
    var n := key + "=" + value + "\n";
    match FirstMatch(lines, key, oldKey)
    case Some(i) => Terminated(lines[i := n])
    case None => Terminated(lines) + [n]
  }

  // ----- What a save leaves -----

  ghost predicate NoneMatch(lines: seq<string>, key: string, oldKey: Option<string>) {
    forall i :: 0 <= i < |lines| ==> !Matches(lines[i], key, oldKey)
  }

  lemma {:induction false} SkipSpaceEnded(s: string)
    ensures "=" <= SkipSpace(s + "\n") ==> "=" <= SkipSpace(s)
  {
    if s == "" {
      assert s + "\n" == "\n" && SkipSpace("\n"[1..]) == "";
    } else {
      assert (s + "\n")[1..] == s[1..] + "\n";
      if IsSpace(s[0]) {
        SkipSpaceEnded(s[1..]);
      }
    }
  }

  lemma StartsEnded(s: string, key: string)
    requires StartsAssignment(s + "\n", key)
    ensures StartsAssignment(s, key)
  {
    var t := s + "\n";
    assert t[|key|..] == "" || |key| <= |s|;
    if |key| <= |s| {
      assert key == t[..|key|] == s[..|key|];
      assert t[|key|..] == s[|key|..] + "\n";
      SkipSpaceEnded(s[|key|..]);
    }
  }

  lemma {:induction false} AssignsEnded(s: string, key: string)
    requires AssignsAfterSpace(s + "\n", key)
    ensures AssignsAfterSpace(s, key)
  {
    if StartsAssignment(s + "\n", key) {
      StartsEnded(s, key);
    } else {
      assert (s + "\n")[1..] == if s == "" then "" else s[1..] + "\n";
      assert !AssignsAfterSpace("", key);
      if s != "" {
        AssignsEnded(s[1..], key);
      }
    }
  }

  lemma {:induction false} SkipSpaceOfEnded(s: string)
    ensures SkipSpace(s + "\n") == if SkipSpace(s) == "" then "" else SkipSpace(s) + "\n"
  {
    if s == "" {
      assert s + "\n" == "\n" && SkipSpace("\n"[1..]) == "";
    } else {
      assert (s + "\n")[1..] == s[1..] + "\n";
      if IsSpace(s[0]) {
        SkipSpaceOfEnded(s[1..]);
      }
    }
  }

  /** A missing line end hides no match. */
  lemma MatchesEnded(l: string, key: string, oldKey: Option<string>)
    requires Matches(l + "\n", key, oldKey)
    ensures Matches(l, key, oldKey)
  {
    var s := SkipSpace(l);
    SkipSpaceOfEnded(l);
    if s != "" {
      if IsKeyLine(l + "\n", key) {
        StartsEnded(s, key);
      } else if IsCommentedKey(l + "\n", key) {
        assert (s + "\n")[1..] == s[1..] + "\n";
        AssignsEnded(s[1..], key);
      } else {
        StartsEnded(s, oldKey.value);
      }
    }
  }

  lemma TerminatedUnmatched(lines: seq<string>, key: string, oldKey: Option<string>, i: nat)
    requires i < |lines| && !Matches(lines[i], key, oldKey)
    ensures !Matches(Terminated(lines)[i], key, oldKey)
  {
    hide Matches;
    assert Terminated(lines)[i] == lines[i] || Terminated(lines)[i] == lines[i] + "\n";
    if Matches(lines[i] + "\n", key, oldKey) {
      MatchesEnded(lines[i], key, oldKey);
      assert false;
    }
  }

  lemma TerminatedLines(text: string)
    ensures AllLines(Terminated(Lines(text)))
  {
    var lines := Lines(text);
    LinesShape(text);
    forall i | 0 <= i < |lines| ensures IsLine(Terminated(lines)[i]) {
      assert (lines[i] + "\n")[..|lines[i]|] == lines[i];
    }
  }

  lemma TerminatedAt(lines: seq<string>, i: nat, n: string)
    requires i < |lines| && LastChar(n) == "\n"
    ensures Terminated(lines[i := n]) == Terminated(lines)[..i] + [n] + Terminated(lines)[i + 1..]
  {
    var r, t := Terminated(lines[i := n]), Terminated(lines);
    forall j | 0 <= j < |lines| ensures r[j] == if j == i then n else t[j] {
    }
  }

  /** The lines of a save: lines that do not match, the new line, the lines that
      followed, all with line ends. */
  lemma EditedParts(text: string, key: string, value: string, oldKey: Option<string>, crlf: bool)
    returns (head: seq<string>, tail: seq<string>)
    ensures head + [NewLine(key, value, crlf)] + tail == Edited(Lines(text), key, value, oldKey, crlf)
    ensures AllLines(head) && NoneMatch(head, key, oldKey)
    ensures AllLines(tail)
    ensures var lines := Lines(text);
      match FirstMatch(lines, key, oldKey)
      case Some(i) => head == Terminated(lines)[..i] && tail == Terminated(lines)[i + 1..]
      case None => head == Terminated(lines) && tail == []
  {
    TerminatedLines(text);
    hide Matches, IsLine, Lines;
    var lines, n := Lines(text), NewLine(key, value, crlf);
    NewLineEnds(key, value, crlf);
    hide NewLine, LastChar;
    match FirstMatch(lines, key, oldKey) {
      case Some(i) =>
        head, tail := Terminated(lines)[..i], Terminated(lines)[i + 1..];
        TerminatedAt(lines, i, n);
      case None =>
        head, tail := Terminated(lines), [];
        assert head + [n] + tail == head + [n];
    }
    hide Terminated, Edited, FirstMatch;
    forall j | 0 <= j < |head| ensures !Matches(head[j], key, oldKey) {
      TerminatedUnmatched(lines, key, oldKey, j);
    }
  }

  lemma NewLineEnds(key: string, value: string, crlf: bool)
    ensures var n := NewLine(key, value, crlf); n != "" && Ended(n) && LastChar(n) == "\n"
  {
    SeenEnds(key + "=" + value, crlf);
  }

  lemma JoinTerminated(text: string)
    requires '\r' !in text
    ensures '\r' !in Join(Terminated(Lines(text)))
  {
    JoinLines(text);
    TerminatedJoined(Lines(text));
    hide Lines, Join, Terminated;
  }

  lemma TerminatedJoined(lines: seq<string>)
    ensures Join(Terminated(lines)) == Join(lines) || Join(Terminated(lines)) == Join(lines) + "\n"
  {
    if Terminated(lines) != lines {
      var init, last := lines[..|lines| - 1], lines[|lines| - 1];
      assert lines == init + [last] && Terminated(lines) == init + [last + "\n"];
      hide Terminated, LastChar;
      JoinAppend(init, [last]);
      JoinAppend(init, [last + "\n"]);
      OneJoined(last);
      OneJoined(last + "\n");
      hide Join;
      Associate(Join(init), last, "\n");
    }
  }

  lemma OneJoined(line: string)
    ensures Join([line]) == line
  {
    assert [line][1..] == [] && line + "" == line;
  }

  /** What the text layer makes of the lines written is what the save leaves. */
  lemma RawSeen(text: string, key: string, value: string, oldKey: Option<string>, crlf: bool)
    requires '\r' !in text
    ensures Seen(Join(Raw(Lines(text), key, value, oldKey)), crlf) == Save(text, key, value, oldKey, crlf)
  {
    var lines, at := Lines(text), FirstMatch(Lines(text), key, oldKey);
    var n := key + "=" + value + "\n";
    assert LastChar(n) == "\n" && n[|n| - 1] == '\n';
    var head, tail := Before(Terminated(lines), at), After(Terminated(lines), at);
    RawParts(lines, key, value, oldKey);
    EditedAround(lines, key, value, oldKey, crlf);
    JoinTerminated(text);
    HalvesPlain(Terminated(lines), at);
    hide Lines, Terminated, FirstMatch, Before, After, Raw, Edited, LastChar, Join, Seen;
    JoinThree(head, n, tail);
    JoinThree(head, NewLine(key, value, crlf), tail);
    SeenThree(Join(head), n, Join(tail), crlf);
  }

  lemma SeenThree(a: string, n: string, b: string, crlf: bool)
    requires '\r' !in a && '\r' !in b && n != "" && n[|n| - 1] == '\n'
    ensures Seen(a + n + b, crlf) == a + Seen(n, crlf) + b
  {
    SeenAppend(a + n, b, crlf);
    SeenAppend(a, n, crlf);
    SeenPlain(a, crlf);
    SeenPlain(b, crlf);
    hide Seen;
    assert (a + n)[|a + n| - 1] == '\n';
  }

  lemma HalvesPlain(lines: seq<string>, at: Option<nat>)
    requires (at.Some? ==> at.value < |lines|) && '\r' !in Join(lines)
    ensures '\r' !in Join(Before(lines, at)) && '\r' !in Join(After(lines, at))
  {
    if at.Some? {
      var i := at.value;
      assert lines == lines[..i] + ([lines[i]] + lines[i + 1..]);
      JoinAppend(lines[..i], [lines[i]] + lines[i + 1..]);
      JoinAppend([lines[i]], lines[i + 1..]);
    }
  }

  lemma RawParts(lines: seq<string>, key: string, value: string, oldKey: Option<string>)
    ensures var n, at := key + "=" + value + "\n", FirstMatch(lines, key, oldKey);
      Raw(lines, key, value, oldKey) == Before(Terminated(lines), at) + [n] + After(Terminated(lines), at)
  {
    var n, at := key + "=" + value + "\n", FirstMatch(lines, key, oldKey);
    assert LastChar(n) == "\n";
    PutAround(lines, n, at);
    hide LastChar, FirstMatch, Terminated, Before, After;
  }

  lemma PutAround(lines: seq<string>, n: string, at: Option<nat>)
    requires (at.Some? ==> at.value < |lines|) && LastChar(n) == "\n"
    ensures (match at case Some(i) => Terminated(lines[i := n]) case None => Terminated(lines) + [n])
      == Before(Terminated(lines), at) + [n] + After(Terminated(lines), at)
  {
    match at {
      case Some(i) => TerminatedAt(lines, i, n);
      case None => assert Terminated(lines) + [n] + [] == Terminated(lines) + [n];
    }
    hide Terminated, LastChar;
  }

  lemma EditedAround(lines: seq<string>, key: string, value: string, oldKey: Option<string>, crlf: bool)
    ensures var n, at := NewLine(key, value, crlf), FirstMatch(lines, key, oldKey);
      Edited(lines, key, value, oldKey, crlf) == Before(Terminated(lines), at) + [n] + After(Terminated(lines), at)
  {
    var n := NewLine(key, value, crlf);
    NewLineEnds(key, value, crlf);
    PutAround(lines, NewLine(key, value, crlf), FirstMatch(lines, key, oldKey));
    hide NewLine, LastChar, FirstMatch, Terminated, Before, After;
  }

  lemma JoinThree(head: seq<string>, n: string, tail: seq<string>)
    ensures Join(head + [n] + tail) == Join(head) + n + Join(tail)
  {
    JoinAppend(head + [n], tail);
    JoinAppend(head, [n]);
    assert Join([n]) == n + Join([n][1..]);
  }

  /** A value that is one line changes one line: every other line is kept, in order,
      save that the last one gets its line end. */
  lemma SavedLines(text: string, key: string, value: string, oldKey: Option<string>, crlf: bool)
    requires IsLine(NewLine(key, value, crlf))
    ensures var lines := Lines(text);
      Lines(Save(text, key, value, oldKey, crlf)) ==
        match FirstMatch(lines, key, oldKey)
        case Some(i) => Terminated(lines)[i := NewLine(key, value, crlf)]
        case None => Terminated(lines) + [NewLine(key, value, crlf)]
  {
    hide Matches, IsLine, Lines, Edited, Join;
    var n := NewLine(key, value, crlf);
    var head, tail := EditedParts(text, key, value, oldKey, crlf);
    var all := head + [n] + tail;
    LinesOfJoin(all, "");
    NoLines();
    assert Join(all) + "" == Join(all);
    assert all + [] == all;
    match FirstMatch(Lines(text), key, oldKey) {
      case Some(i) => assert all == Terminated(Lines(text))[i := n];
      case None =>
    }
  }

  lemma NoLines()
    ensures Lines("") == []
  {
  }

  // ----- Saving twice -----

  lemma {:induction false} FirstMatchAfter(head: seq<string>, rest: seq<string>, key: string, oldKey: Option<string>)
    requires NoneMatch(head, key, oldKey)
    ensures FirstMatch(head + rest, key, oldKey) ==
      match FirstMatch(rest, key, oldKey) case Some(j) => Some(|head| + j) case None => None
  {
    hide Matches;
    if head == [] {
      assert head + rest == rest;
    } else {
      FirstMatchAfter(head[1..], rest, key, oldKey);
      assert (head + rest)[1..] == head[1..] + rest;
    }
  }

  lemma Associate(a: string, b: string, c: string)
    ensures a + b + c == a + (b + c)
  {
  }

  /** The lines of a saved file: those of the head, of the new text, of the tail. */
  lemma LinesOfSaved(head: seq<string>, n: string, tail: seq<string>)
    requires AllLines(head)
    requires AllLines(tail)
    requires n != "" && Ended(n)
    ensures Lines(Join(head) + n + Join(tail)) == head + (Lines(n) + tail)
    ensures AllLines(Lines(n) + tail)
    ensures Join(head) + n + Join(tail) == Join(head + (Lines(n) + tail))
  {
    LinesShape(n);
    JoinLines(n);
    BothLines(Lines(n), tail);
    hide IsLine, Lines, Join, AllLines, IndexOfNewline;
    LinesOfJoin(tail, "");
    NoLines();
    LinesOfJoin(Lines(n), Join(tail));
    LinesOfJoin(head, n + Join(tail));
    JoinAppend(Lines(n), tail);
    JoinAppend(head, Lines(n) + tail);
    assert Join(tail) + "" == Join(tail) && tail + [] == tail;
    Associate(Join(head), n, Join(tail));
  }

  lemma BothLines(a: seq<string>, b: seq<string>)
    requires AllLines(a) && AllLines(b)
    ensures AllLines(a + b)
  {
  }

  lemma AllEnded(lines: seq<string>)
    requires AllLines(lines)
    ensures Terminated(lines) == lines
  {
  }

  /** A line put in place of another, or at the end. */
  function Overwritten(lines: seq<string>, n: string, at: Option<nat>): seq<string>
    requires at.Some? ==> at.value < |lines|
  {
    match at
    case Some(j) => lines[j := n]
    case None => lines + [n]
  }

  lemma OverwrittenRight(a: seq<string>, b: seq<string>, n: string, at: Option<nat>)
    requires at.Some? ==> at.value < |b|
    ensures Overwritten(a + b, n, match at case Some(j) => Some(|a| + j) case None => None) == a + Overwritten(b, n, at)
  {
  }

  lemma EditedOverwrites(lines: seq<string>, key: string, value: string, oldKey: Option<string>, crlf: bool)
    requires Terminated(lines) == lines
    ensures Edited(lines, key, value, oldKey, crlf) ==
      Overwritten(lines, NewLine(key, value, crlf), FirstMatch(lines, key, oldKey))
  {
    NewLineEnds(key, value, crlf);
    match FirstMatch(lines, key, oldKey) {
      case Some(i) => StillTerminated(lines, i, NewLine(key, value, crlf));
      case None =>
    }
    hide Matches, NewLine, FirstMatch, LastChar, Terminated;
  }

  lemma StillTerminated(lines: seq<string>, i: nat, n: string)
    requires i < |lines| && Terminated(lines) == lines && LastChar(n) == "\n"
    ensures Terminated(lines[i := n]) == lines[i := n]
  {
    var r := lines[i := n];
    assert |r| == |lines| && r[|r| - 1] == if i == |r| - 1 then n else lines[|r| - 1];
    hide LastChar;
  }

  /** Saving the same again overwrites the first matching line after the head with
      the new text, or appends it. */
  lemma EditedAgain(
      head: seq<string>, rest: seq<string>, key: string, value: string, oldKey: Option<string>, crlf: bool)
    requires NoneMatch(head, key, oldKey)
    requires Terminated(head + rest) == head + rest
    ensures Edited(head + rest, key, value, oldKey, crlf)
      == head + Overwritten(rest, NewLine(key, value, crlf), FirstMatch(rest, key, oldKey))
  {
    hide Matches, NewLine, LastChar, NoneMatch, Edited, Terminated;
    EditedOverwrites(head + rest, key, value, oldKey, crlf);
    FirstMatchAfter(head, rest, key, oldKey);
    OverwrittenRight(head, rest, NewLine(key, value, crlf), FirstMatch(rest, key, oldKey));
  }

  lemma CancelText(a: string, x: string, y: string, b: string)
    ensures a + x + b == a + y + b <==> x == y
  {
    if a + x + b == a + y + b {
      assert |x| == |y|;
      assert x == (a + x + b)[|a|..|a| + |x|] == y;
    }
  }

  /** Saving the same value twice is saving it once exactly when the written text is
      one line and that line is found again. */
  lemma IdempotentIff(text: string, key: string, value: string, oldKey: Option<string>, crlf: bool)
    ensures var once := Save(text, key, value, oldKey, crlf);
      Save(once, key, value, oldKey, crlf) == once <==>
      IsLine(NewLine(key, value, crlf)) && Matches(NewLine(key, value, crlf), key, oldKey)
  {
    var n := NewLine(key, value, crlf);
    var head, tail := SavedForm(text, key, value, oldKey, crlf);
    NewLineEnds(key, value, crlf);
    SaveJoins(Save(text, key, value, oldKey, crlf), key, value, oldKey, crlf);
    hide Matches, IsLine, Join, Lines, Edited, NewLine, Terminated, AllLines, NoneMatch, Save, LastChar, Overwritten;
    EditedAgain(head, Lines(n) + tail, key, value, oldKey, crlf);
    SameAgainIff(head, Lines(n) + tail, n, FirstMatch(Lines(n) + tail, key, oldKey));
    FirstLineIff(n, tail, key, oldKey);
  }

  lemma SaveJoins(text: string, key: string, value: string, oldKey: Option<string>, crlf: bool)
    ensures Save(text, key, value, oldKey, crlf) == Join(Edited(Lines(text), key, value, oldKey, crlf))
  {
  }

  /** A saved file by its lines: some that do not match, those of the new text, and
      some more, all with line ends. */
  lemma SavedForm(text: string, key: string, value: string, oldKey: Option<string>, crlf: bool)
    returns (head: seq<string>, tail: seq<string>)
    ensures NoneMatch(head, key, oldKey)
    ensures var rest := Lines(NewLine(key, value, crlf)) + tail;
      && AllLines(rest)
      && Save(text, key, value, oldKey, crlf) == Join(head + rest)
      && Lines(Save(text, key, value, oldKey, crlf)) == head + rest
      && Terminated(head + rest) == head + rest
  {
    var n := NewLine(key, value, crlf);
    NewLineEnds(key, value, crlf);
    head, tail := EditedParts(text, key, value, oldKey, crlf);
    hide Matches, IsLine, Lines, Join, Edited, NewLine, FirstMatch, Terminated, AllLines, NoneMatch, Ended;
    JoinThree(head, n, tail);
    LinesOfSaved(head, n, tail);
    BothLines(head, Lines(n) + tail);
    AllEnded(head + (Lines(n) + tail));
  }

  lemma {:induction false} JoinUpdateIff(lines: seq<string>, j: nat, n: string)
    requires j < |lines|
    ensures Join(lines[j := n]) == Join(lines) <==> lines[j] == n
  {
    var r := lines[j := n];
    if j == 0 {
      assert r[1..] == lines[1..];
      CancelText("", n, lines[0], Join(lines[1..]));
      assert "" + n == n && "" + lines[0] == lines[0];
    } else {
      JoinUpdateIff(lines[1..], j - 1, n);
      assert r[1..] == lines[1..][j - 1 := n];
      CancelText(lines[0], Join(r[1..]), Join(lines[1..]), "");
      assert Join(r) + "" == Join(r) && Join(lines) + "" == Join(lines);
    }
  }

  /** Putting the text in place of the first match, or at the end, changes nothing
      exactly when that match is the text. */
  lemma SameAgainIff(head: seq<string>, rest: seq<string>, n: string, at: Option<nat>)
    requires n != "" && (at.Some? ==> at.value < |rest|)
    ensures Join(head + Overwritten(rest, n, at)) == Join(head + rest) <==> at.Some? && rest[at.value] == n
  {
    hide Join;
    var r := Overwritten(rest, n, at);
    JoinAppend(head, r);
    JoinAppend(head, rest);
    CancelText(Join(head), Join(r), Join(rest), "");
    assert Join(head) + Join(r) + "" == Join(head) + Join(r);
    assert Join(head) + Join(rest) + "" == Join(head) + Join(rest);
    match at {
      case Some(j) => JoinUpdateIff(rest, j, n);
      case None => JoinGrows(rest, n);
    }
  }

  lemma JoinGrows(lines: seq<string>, n: string)
    requires n != ""
    ensures Join(lines + [n]) != Join(lines)
  {
    JoinAppend(lines, [n]);
    assert Join([n]) == n + Join([n][1..]);
  }

  lemma OneLine(n: string)
    requires IsLine(n)
    ensures Lines(n) == [n]
  {
    LinesOfFirst(n, "");
    assert n + "" == n;
  }

  /** The first match is the new text itself exactly if that is one line, and matches. */
  lemma FirstLineIff(n: string, tail: seq<string>, key: string, oldKey: Option<string>)
    requires AllLines(Lines(n) + tail)
    ensures var rest := Lines(n) + tail;
      match FirstMatch(rest, key, oldKey)
      case Some(j) => rest[j] == n <==> IsLine(n) && Matches(n, key, oldKey)
      case None => !(IsLine(n) && Matches(n, key, oldKey))
  {
    hide Matches, IsLine, Lines;
    if IsLine(n) {
      OneLine(n);
      assert (Lines(n) + tail)[0] == n;
    }
  }

  // ----- Ordinary keys -----

  /** A key without line ends that does not start with white space. */
  predicate IsPlainKey(key: string) {
    NoLineEnd(key) && (key == "" || !IsSpace(key[0]))
  }

  lemma NewLineParts(key: string, value: string, crlf: bool)
    requires NoLineEnd(key)
    ensures var n := NewLine(key, value, crlf);
      && n == key + ("=" + Seen(value + "\n", crlf))
      && key <= n && n[|key|..] == "=" + Seen(value + "\n", crlf)
      && n[0] == if key == "" then '=' else key[0]
  {
    assert key + "=" + value + "\n" == (key + "=") + (value + "\n");
    assert (key + "=")[|key + "="| - 1] == '=';
    SeenAppend(key + "=", value + "\n", crlf);
    SeenPlain(key + "=", crlf);
    hide Seen;
    assert key + "=" + Seen(value + "\n", crlf) == key + ("=" + Seen(value + "\n", crlf));
  }

  lemma NewLineFound(key: string, value: string, crlf: bool)
    requires IsPlainKey(key)
    ensures SkipSpace(NewLine(key, value, crlf)) == NewLine(key, value, crlf)
    ensures IsKeyLine(NewLine(key, value, crlf), key)
  {
    NewLineParts(key, value, crlf);
    hide NewLine, Seen;
    assert ("=" + Seen(value + "\n", crlf))[0] == '=';
  }

  /** For such keys saving is idempotent if and only if the value stays on one line. */
  lemma PlainKeyIdempotentIff(text: string, key: string, value: string, oldKey: Option<string>, crlf: bool)
    requires IsPlainKey(key)
    ensures var once := Save(text, key, value, oldKey, crlf);
      Save(once, key, value, oldKey, crlf) == once <==> StaysOneLine(value, crlf)
  {
    IdempotentIff(text, key, value, oldKey, crlf);
    NewLineFound(key, value, crlf);
    NewLineIsLine(key, value, crlf);
    hide NewLine, Seen, StaysOneLine, IsKeyLine, Save, IsLine;
  }

  lemma NewLineIsLine(key: string, value: string, crlf: bool)
    requires NoLineEnd(key)
    ensures IsLine(NewLine(key, value, crlf)) <==> StaysOneLine(value, crlf)
  {
    NewLineParts(key, value, crlf);
    SeenLineIff(value, crlf);
    SeenEnds(value, crlf);
    hide NewLine, Seen, StaysOneLine;
    var r := Seen(value + "\n", crlf);
    var n := NewLine(key, value, crlf);
    assert n == (key + "=") + r;
    assert n[..|n| - 1] == (key + "=") + r[..|r| - 1];
  }

  // ----- The parts of a saved file -----

  function Before(lines: seq<string>, at: Option<nat>): seq<string>
    requires at.Some? ==> at.value < |lines|
  {
    match at case Some(i) => lines[..i] case None => lines
  }

  function After(lines: seq<string>, at: Option<nat>): seq<string>
    requires at.Some? ==> at.value < |lines|
  {
    match at case Some(i) => lines[i + 1..] case None => []
  }

  /** The lines before the one a save writes. */
  function HeadLines(text: string, key: string, oldKey: Option<string>): seq<string> {
    Before(Terminated(Lines(text)), FirstMatch(Lines(text), key, oldKey))
  }

  /** The lines after it. */
  function LaterLines(text: string, key: string, oldKey: Option<string>): seq<string> {
    After(Terminated(Lines(text)), FirstMatch(Lines(text), key, oldKey))
  }

  lemma OverwrittenParts(lines: seq<string>, n: string, at: Option<nat>)
    requires at.Some? ==> at.value < |lines|
    ensures Overwritten(lines, n, at) == Before(lines, at) + [n] + After(lines, at)
  {
  }

  lemma SavedParts(text: string, key: string, value: string, oldKey: Option<string>, crlf: bool)
    requires NoLineEnd(key) && StaysOneLine(value, crlf)
    ensures Lines(Save(text, key, value, oldKey, crlf)) ==
      HeadLines(text, key, oldKey) + [NewLine(key, value, crlf)] + LaterLines(text, key, oldKey)
  {
    NewLineIsLine(key, value, crlf);
    SavedLines(text, key, value, oldKey, crlf);
    OverwrittenParts(Terminated(Lines(text)), NewLine(key, value, crlf), FirstMatch(Lines(text), key, oldKey));
    hide Matches, IsLine, Lines, Save, NewLine, FirstMatch, Terminated, Before, After;
  }
}
