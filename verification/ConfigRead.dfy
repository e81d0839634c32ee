/** Reading `emulator.ini`: `configparser` with sections, continuation lines, folded
    option names and `%` interpolation, and the clean-up of each value after it.  What
    a saved value is worth is proved against this reader. */
module ConfigRead {
  import opened Results
  import opened ConfigFile

  /** How the parser is set up: `fold` is its `optionxform`, which is `str.lower`. */
  datatype Parser = Parser(fold: string -> string, defaults: map<string, string>)

  const CONFIG := "config"
  const DEFAULT := "DEFAULT"

  // ----- Text -----

  lemma {:induction false} SkipSpaceShape(s: string)
    ensures |SkipSpace(s)| <= |s| && SkipSpace(s) == s[|s| - |SkipSpace(s)|..]
    ensures SkipSpace(s) == "" || !IsSpace(SkipSpace(s)[0])
  {
    if s != "" && IsSpace(s[0]) {
      SkipSpaceShape(s[1..]);
    }
  }

  function TrimRight(s: string): string {
    if s != "" && IsSpace(s[|s| - 1]) then TrimRight(s[..|s| - 1]) else s
  }

  /** `strip` */
  function Strip(s: string): string {
    TrimRight(SkipSpace(s))
  }

  /** Whether a character ends an option's name. */
  predicate IsDelimiter(c: char) {
    c == '=' || c == ':'
  }

  predicate IsCommentMark(c: char) {
    c == ';' || c == '#'
  }

  /** The part before the first character of some kind. */
  function Until(s: string, stops: char -> bool): (r: string)
    ensures r <= s && (forall c :: c in r ==> !stops(c))
    ensures r == s || (|r| < |s| && stops(s[|r|]))
  {
    if s == "" || stops(s[0]) then "" else [s[0]] + Until(s[1..], stops)
  }

  // ----- Lines, as the parser takes them -----

  /** Where the parser is: the section, the option that may go on, its indentation.
      There is no option to continue when its name is empty. */
  datatype Place = Place(section: Option<string>, option: string, indent: nat)

  datatype Kind =
    | Blank
    | Comment
    | More(text: string)  // continues the option before it
    | Heading(name: string)
    | Assign(name: string, text: string)
    | Bad

  function Indent(line: string): nat {
    SkipSpaceShape(line);
    |line| - |SkipSpace(line)|
  }

  /** `[name]` at the start of a stripped line */
  function Header(s: string): Option<string> {
    if s == "" || s[0] != '[' then None else
      var name := Until(s[1..], c => c == ']');
      if name == "" || name == s[1..] then None else Some(name)
  }

  /** The name and the text of an option, from a stripped line. */
  function ReadOption(s: string): Option<(string, string)> {
    var name := Until(s, IsDelimiter);
    if name == s then None else Some((TrimRight(name), Strip(s[|name| + 1..])))
  }

  predicate Continues(at: Place, line: string) {
    at.section.Some? && at.option != "" && Indent(line) > at.indent
  }

  function KindOf(p: Parser, at: Place, line: string): Kind {
    var s := Strip(line);
    if s == "" then Blank
    else if IsCommentMark(s[0]) then Comment
    else if Continues(at, line) then More(s)
    else match Header(s)
      case Some(name) => Heading(name)
      case None =>
        match ReadOption(s)
        case Some((name, text)) => if at.section.None? || name == "" then Bad else Assign(p.fold(name), text)
        case None => Bad
  }

  function Move(at: Place, line: string, kind: Kind): Place {
    match kind
    case Heading(name) => Place(Some(name), "", Indent(line))
    case Assign(name, _) => Place(at.section, name, Indent(line))
    case Bad => at.(indent := Indent(line))
    case _ => at
  }

  /** The option a line speaks about, as section and name. */
  function Target(at: Place, kind: Kind): Option<(string, string)> {
    if at.section.None? then None else
      match kind
      case Assign(name, _) => Some((at.section.value, name))
      case More(_) => Some((at.section.value, at.option))
      case Blank => if at.option == "" then None else Some((at.section.value, at.option))
      case _ => None
  }

  // ----- The whole file -----

  /** What has been read: lines of text by section and option, the sections, and
      whether the parser will raise. */
  datatype State = State(at: Place, entries: map<(string, string), seq<string>>, sections: set<string>, broken: bool)

  const START := State(Place(None, "", 0), map[], {}, false)

  function Recorded(entries: map<(string, string), seq<string>>, q: (string, string), kind: Kind)
    : map<(string, string), seq<string>>
  {
    var before := if q in entries then entries[q] else [];
    match kind
    case Assign(_, text) => entries[q := [text]]
    case More(text) => entries[q := before + [text]]
    case Blank => entries[q := before + [""]]
    case _ => entries
  }

  function Step(p: Parser, st: State, line: string): State {
    var kind := KindOf(p, st.at, line);
    var target := Target(st.at, kind);
    State(
      Move(st.at, line, kind),
      if target.Some? then Recorded(st.entries, target.value, kind) else st.entries,
      if kind.Heading? then st.sections + {kind.name} else st.sections,
      st.broken || kind == Bad)
  }

  function Parse(p: Parser, st: State, lines: seq<string>): State
    decreases |lines|
  {
    if lines == [] then st else Parse(p, Step(p, st, lines[0]), lines[1..])
  }

  /** `"\n".join(lines)` */
  function JoinedLines(lines: seq<string>): string {
    if lines == [] then "" else if |lines| == 1 then lines[0] else lines[0] + "\n" + JoinedLines(lines[1..])
  }

  /** The text of an option: its lines, trailing space cut off. */
  function Joined(lines: seq<string>): string {
    TrimRight(JoinedLines(lines))
  }

  function NamesIn(st: State, section: string): set<string> {
    set q | q in st.entries.Keys && q.0 == section :: q.1
  }

  /** The options of `[config]`: its own, else those of `[DEFAULT]`, else the
      parser's defaults. */
  function Options(p: Parser, st: State): map<string, string> {
    map n | n in NamesIn(st, CONFIG) + NamesIn(st, DEFAULT) + p.defaults.Keys ::
      if (CONFIG, n) in st.entries then Joined(st.entries[(CONFIG, n)])
      else if (DEFAULT, n) in st.entries then Joined(st.entries[(DEFAULT, n)])
      else p.defaults[n]
  }

  // ----- Values -----

  const MAX_INTERPOLATION_DEPTH := 10

  /** A text that starts with `%(name)s`: the name, as written. */
  function Reference(s: string): Option<string> {
    if |s| < 2 || s[1] != '(' then None else
      var name := Until(s[2..], c => c == ')');
      if name == "" || |name| + 3 >= |s| || s[|name| + 3] != 's' then None else Some(name)
  }

  /** `%%` stands for a percent sign and `%(name)s` for another option's value. */
  function Expand(p: Parser, options: map<string, string>, s: string, depth: nat): Result<string>
    decreases MAX_INTERPOLATION_DEPTH + 1 - depth, |s|
  {
    if depth > MAX_INTERPOLATION_DEPTH then Err(InterpolationError)
    else if s == "" then Ok("")
    else if s[0] != '%' then
      var rest :- Expand(p, options, s[1..], depth);
      Ok([s[0]] + rest)
    else if "%%" <= s then
      var rest :- Expand(p, options, s[2..], depth);
      Ok("%" + rest)
    else match Reference(s)
      case None => Err(InterpolationError)
      case Some(name) =>
        var n := p.fold(name);
        if n !in options then Err(InterpolationError) else
        var v :- if '%' in options[n] then Expand(p, options, options[n], depth + 1) else Ok(options[n]);
        var rest :- Expand(p, options, s[|name| + 4..], depth);
        Ok(v + rest)
  }

  predicate IsQuoted(text: string, quote: char) {
    text != "" && text[0] == quote && quote in text[1..]
  }

  function Inside(text: string): Result<string>
    requires text != ""
  {
    var inside := Until(text[1..], c => c == text[0]);
    if inside == "" then Err(AttributeError) else Ok(inside)
  }

  /** What `read_config` makes of an option's value: the inside of leading quotes, or
      what stands before a comment.  Empty quotes leave it with no match to strip. */
  function Cleaned(text: string): Result<string> {
    if IsQuoted(SkipSpace(text), '"') then Inside(SkipSpace(text))
    else if IsQuoted(text, '\'') then Inside(text)
    else Ok(Strip(Until(text, IsCommentMark)))
  }

  function ReadOne(p: Parser, options: map<string, string>, n: string): Result<string>
    requires n in options
  {
    var v :- Expand(p, options, options[n], 1);
    Cleaned(v)
  }

  predicate Readable(p: Parser, options: map<string, string>, n: string)
    requires n in options
  {
    ReadOne(p, options, n).Ok?
  }

  /** The parser does not raise, and finds the section asked for. */
  predicate Parses(st: State) {
    !st.broken && CONFIG in st.sections
  }

  /** `read_config`: None when it raises, which a single bad option is enough for. */
  function ReadConfig(p: Parser, text: string): Option<map<string, string>> {
    var st := Parse(p, START, Lines(text));
    var options := Options(p, st);
    if !Parses(st) || exists n :: n in options && !Readable(p, options, n) then None
    else Some(map n | n in options :: ReadOne(p, options, n).value)
  }

  // ----- Stripping -----

  lemma {:induction false} TrimRightAfter(p: string, s: string)
    requires p != "" && !IsSpace(p[|p| - 1])
    ensures TrimRight(p + s) == p + TrimRight(s)
  {
    if s == "" {
      assert p + s == p;
    } else if IsSpace(s[|s| - 1]) {
      assert (p + s)[..|p + s| - 1] == p + s[..|s| - 1];
      TrimRightAfter(p, s[..|s| - 1]);
    }
  }

  lemma {:induction false} TrimRightShape(s: string)
    ensures TrimRight(s) <= s && TrimRight(TrimRight(s)) == TrimRight(s)
    ensures TrimRight(s) == "" || !IsSpace(TrimRight(s)[|TrimRight(s)| - 1])
    ensures forall i :: |TrimRight(s)| <= i < |s| ==> IsSpace(s[i])
  {
    if s != "" && IsSpace(s[|s| - 1]) {
      TrimRightShape(s[..|s| - 1]);
    }
  }

  /** Trailing space may be cut before or after leading space. */
  lemma {:induction false} StripTrimmed(s: string)
    ensures Strip(TrimRight(s)) == Strip(s)
  {
    TrimRightShape(s);
    if s != "" && IsSpace(s[0]) {
      StripTrimmed(s[1..]);
      if TrimRight(s) != "" {
        TrimRightRest(s);
      } else {
        TrimRightShape(s[1..]);
        AllSpace(s[1..]);
      }
    }
  }

  lemma {:induction false} AllSpace(s: string)
    requires forall i :: 0 <= i < |s| ==> IsSpace(s[i])
    ensures SkipSpace(s) == "" && TrimRight(s) == ""
  {
    if s != "" {
      AllSpace(s[1..]);
      AllSpace(s[..|s| - 1]);
    }
  }

  lemma {:induction false} TrimRightRest(s: string)
    requires TrimRight(s) != ""
    ensures TrimRight(s[1..]) == TrimRight(s)[1..]
  {
    if IsSpace(s[|s| - 1]) {
      assert |s| > 1;
      TrimRightRest(s[..|s| - 1]);
      assert s[1..][..|s| - 2] == s[..|s| - 1][1..];
    }
  }

  lemma StripShorter(s: string)
    ensures |Strip(s)| <= |s| && Strip(Strip(s)) == Strip(s)
    ensures |Strip(s)| == |s| ==> Strip(s) == s
  {
    SkipSpaceShape(s);
    TrimRightShape(SkipSpace(s));
  }

  lemma {:induction false} NameBefore(key: string, s: string)
    requires key + "=" <= s && forall c :: c in key ==> !IsDelimiter(c)
    ensures Until(s, IsDelimiter) == key
  {
    if key == "" {
      assert s[0] == '=';
    } else {
      assert s[0] == key[0] && key[0] in key;
      assert (key + "=")[1..] == key[1..] + "=";
      NameBefore(key[1..], s[1..]);
    }
  }

  // ----- The line a save writes -----

  /** A key that the parser reads back as one option of that name. */
  predicate IsOptionName(p: Parser, key: string) {
    && IsPlainKey(key) && key != "" && !IsSpace(key[|key| - 1])
    && key[0] != ';' && key[0] != '#' && key[0] != '['
    && '=' !in key && ':' !in key
    && p.fold(key) == key
  }

  lemma NewLineStripped(key: string, value: string, crlf: bool)
    requires IsPlainKey(key) && key != "" && StaysOneLine(value, crlf)
    ensures SkipSpace(NewLine(key, value, crlf)) == NewLine(key, value, crlf)
    ensures Strip(NewLine(key, value, crlf)) == key + "=" + TrimRight(value)
  {
    NewLineFound(key, value, crlf);
    var v := SeenValue(key, value, crlf);
    var p := key + "=";
    assert NewLine(key, value, crlf) == p + (v + "\n");
    hide NewLine, Seen;
    TrimRightAfter(p, v + "\n");
    assert (v + "\n")[..|v|] == v;
  }

  /** A carriage return at the very end is space that goes. */
  lemma SeenValue(key: string, value: string, crlf: bool) returns (v: string)
    requires NoLineEnd(key) && StaysOneLine(value, crlf)
    ensures NewLine(key, value, crlf) == key + "=" + v + "\n" && TrimRight(v) == TrimRight(value)
  {
    if NoLineEnd(value) {
      v := value;
      SeenPlain(key + "=" + v + "\n", crlf);
    } else {
      v := value[..|value| - 1];
      var t := key + "=" + v;
      assert key + "=" + value + "\n" == t + "\r\n";
      assert t[|t| - 1] != '\r' by {
        assert '\r' !in t;
        assert t[|t| - 1] in t;
      }
      SeenAppend(t, "\r\n", crlf);
      SeenPlain(t, crlf);
      SeenReturn();
      hide Seen;
    }
  }

  lemma OptionRead(key: string, value: string)
    requires key != "" && !IsSpace(key[|key| - 1]) && '=' !in key && ':' !in key
    ensures ReadOption(key + "=" + TrimRight(value)) == Some((key, Strip(value)))
  {
    var s := key + "=" + TrimRight(value);
    assert forall c :: IsDelimiter(c) <==> c == '=' || c == ':';
    NameBefore(key, s);
    StripTrimmed(value);
    assert s[|key| + 1..] == TrimRight(value);
  }

  lemma NewLineKind(p: Parser, at: Place, key: string, value: string, crlf: bool)
    requires IsOptionName(p, key) && StaysOneLine(value, crlf)
    ensures Indent(NewLine(key, value, crlf)) == 0
    ensures KindOf(p, at, NewLine(key, value, crlf)) == if at.section.None? then Bad else Assign(key, Strip(value))
  {
    NewLineStripped(key, value, crlf);
    OptionRead(key, value);
    var s := key + "=" + TrimRight(value);
    assert s[0] == key[0] && s != "";
    hide Strip, TrimRight, ReadOption, NewLine, SkipSpace;
  }

  // ----- What later lines do to an option -----

  /** The lines of an option are replaced, or more are added to them. */
  datatype Change = Change(replaced: bool, more: seq<string>)

  function Later(p: Parser, at: Place, lines: seq<string>, q: (string, string)): Change
    decreases |lines|
  {
    if lines == [] then Change(false, []) else
      var kind := KindOf(p, at, lines[0]);
      var rest := Later(p, Move(at, lines[0], kind), lines[1..], q);
      if rest.replaced || Target(at, kind) != Some(q) then rest else
        match kind
        case Assign(_, text) => Change(true, [text] + rest.more)
        case More(text) => Change(false, [text] + rest.more)
        case Blank => Change(false, [""] + rest.more)
        case _ => rest
  }

  function Changed(entry: Option<seq<string>>, c: Change): Option<seq<string>> {
    if c.replaced then Some(c.more)
    else match entry
      case Some(lines) => Some(lines + c.more)
      case None => None
  }

  function Entry(st: State, q: (string, string)): Option<seq<string>> {
    if q in st.entries then Some(st.entries[q]) else None
  }

  /** An option that can be continued is one that has been read. */
  ghost predicate Good(st: State) {
    st.at.section.Some? ==>
      st.at.section.value in st.sections &&
      (st.at.option != "" ==> (st.at.section.value, st.at.option) in st.entries)
  }

  lemma StepEntry(p: Parser, st: State, line: string, q: (string, string))
    requires Good(st)
    ensures var kind, st' := KindOf(p, st.at, line), Step(p, st, line);
      && Good(st')
      && st'.at == Move(st.at, line, kind)
      && Entry(st', q) ==
         if Target(st.at, kind) != Some(q) then Entry(st, q) else
           match kind
           case Assign(_, text) => Some([text])
           case More(text) => Changed(Entry(st, q), Change(false, [text]))
           case Blank => Changed(Entry(st, q), Change(false, [""]))
           case _ => Entry(st, q)
  {
    var kind := KindOf(p, st.at, line);
    assert kind.More? ==> Continues(st.at, line);
    hide KindOf;
  }

  lemma {:induction false} EntryAfter(p: Parser, st: State, lines: seq<string>, q: (string, string))
    requires Good(st)
    ensures Good(Parse(p, st, lines))
    ensures Entry(Parse(p, st, lines), q) == Changed(Entry(st, q), Later(p, st.at, lines, q))
    decreases |lines|
  {
    hide KindOf, Step, Entry, Good, Target, Move;
    if lines == [] {
      ChangedByNothing(Entry(st, q));
    } else {
      StepEntry(p, st, lines[0], q);
      EntryAfter(p, Step(p, st, lines[0]), lines[1..], q);
      var rest := Later(p, Step(p, st, lines[0]).at, lines[1..], q);
      forall x ensures Changed(Changed(Entry(st, q), Change(false, [x])), rest)
        == Changed(Entry(st, q), if rest.replaced then rest else Change(false, [x] + rest.more))
      {
        ChangedTwice(Entry(st, q), x, rest);
      }
    }
  }

  lemma ChangedByNothing(entry: Option<seq<string>>)
    ensures Changed(entry, Change(false, [])) == entry
  {
    if entry.Some? {
      assert entry.value + [] == entry.value;
    }
  }

  lemma ChangedTwice(entry: Option<seq<string>>, x: string, rest: Change)
    ensures Changed(Changed(entry, Change(false, [x])), rest)
      == Changed(entry, if rest.replaced then rest else Change(false, [x] + rest.more))
  {
    if entry.Some? {
      assert entry.value + [x] + rest.more == entry.value + ([x] + rest.more);
    }
  }

  lemma {:induction false} ParseAppend(p: Parser, st: State, a: seq<string>, b: seq<string>)
    ensures Parse(p, st, a + b) == Parse(p, Parse(p, st, a), b)
    decreases |a|
  {
    if a == [] {
      assert a + b == b;
    } else {
      assert (a + b)[1..] == a[1..] + b;
      ParseAppend(p, Step(p, st, a[0]), a[1..], b);
      hide Step;
    }
  }

  // ----- The text in force after a save -----

  /** The parser before it comes to the line that a save writes. */
  function HeadState(p: Parser, text: string, key: string, oldKey: Option<string>): State {
    Parse(p, START, HeadLines(text, key, oldKey))
  }

  /** What the lines after it do to the option of that name in a section. */
  function LaterChange(p: Parser, text: string, key: string, oldKey: Option<string>, section: string): Change {
    var at := HeadState(p, text, key, oldKey).at;
    Later(p, Place(at.section, key, 0), LaterLines(text, key, oldKey), (section, key))
  }

  function SavedState(p: Parser, text: string, key: string, value: string, oldKey: Option<string>, crlf: bool): State {
    Parse(p, START, Lines(Save(text, key, value, oldKey, crlf)))
  }

  /** The parser after that line. */
  function Written(st: State, key: string, value: string): State {
    if st.at.section.None? then st.(at := st.at.(indent := 0), broken := true)
    else st.(
      at := Place(st.at.section, key, 0),
      entries := st.entries[(st.at.section.value, key) := [Strip(value)]])
  }

  lemma WrittenIsStep(p: Parser, st: State, key: string, value: string, crlf: bool)
    requires IsOptionName(p, key) && StaysOneLine(value, crlf)
    ensures Step(p, st, NewLine(key, value, crlf)) == Written(st, key, value)
  {
    NewLineKind(p, st.at, key, value, crlf);
    hide KindOf, NewLine, Strip, Indent, IsOptionName;
  }

  lemma SavedInParts(p: Parser, text: string, key: string, value: string, oldKey: Option<string>, crlf: bool)
    requires IsOptionName(p, key) && StaysOneLine(value, crlf)
    ensures SavedState(p, text, key, value, oldKey, crlf) ==
      Parse(p, Written(HeadState(p, text, key, oldKey), key, value), LaterLines(text, key, oldKey))
  {
    SavedParts(text, key, value, oldKey, crlf);
    var head, n, later := HeadLines(text, key, oldKey), NewLine(key, value, crlf), LaterLines(text, key, oldKey);
    WrittenIsStep(p, Parse(p, START, head), key, value, crlf);
    ParseAppend(p, START, head + [n], later);
    ParseAppend(p, START, head, [n]);
    OneStep(p, Parse(p, START, head), n);
    hide *;
  }

  /** The parser at the end of the file that saving the empty value would leave. */
  function Rewritten(p: Parser, text: string, key: string, oldKey: Option<string>): State {
    Parse(p, Written(HeadState(p, text, key, oldKey), key, ""), LaterLines(text, key, oldKey))
  }

  /** Everything but the texts depends on the place alone. */
  ghost predicate SameFrame(st: State, st': State) {
    st.at == st'.at && st.sections == st'.sections && st.broken == st'.broken
  }

  lemma {:induction false} SameFrameAfter(p: Parser, st: State, st': State, lines: seq<string>)
    requires SameFrame(st, st')
    ensures SameFrame(Parse(p, st, lines), Parse(p, st', lines))
    decreases |lines|
  {
    if lines != [] {
      SameFrameStep(p, st, st', lines[0]);
      SameFrameAfter(p, Step(p, st, lines[0]), Step(p, st', lines[0]), lines[1..]);
      hide Step, SameFrame;
    }
  }

  lemma SameFrameStep(p: Parser, st: State, st': State, line: string)
    requires SameFrame(st, st')
    ensures SameFrame(Step(p, st, line), Step(p, st', line))
  {
    hide KindOf, Move, Target, Recorded;
  }

  lemma {:induction false} BrokenStays(p: Parser, st: State, lines: seq<string>)
    requires st.broken
    ensures Parse(p, st, lines).broken
    decreases |lines|
  {
    if lines != [] {
      BrokenStays(p, Step(p, st, lines[0]), lines[1..]);
      hide KindOf, Move, Target, Recorded;
    }
  }

  /** Whether the saved file parses can be told without the value. */
  lemma SavedParsesIff(p: Parser, text: string, key: string, value: string, oldKey: Option<string>, crlf: bool)
    requires IsOptionName(p, key) && StaysOneLine(value, crlf)
    ensures Parses(SavedState(p, text, key, value, oldKey, crlf)) <==> Parses(Rewritten(p, text, key, oldKey))
    ensures Parses(Rewritten(p, text, key, oldKey)) ==> HeadState(p, text, key, oldKey).at.section.Some?
  {
    SavedInParts(p, text, key, value, oldKey, crlf);
    var st, later := HeadState(p, text, key, oldKey), LaterLines(text, key, oldKey);
    assert SameFrame(Written(st, key, value), Written(st, key, ""));
    SameFrameAfter(p, Written(st, key, value), Written(st, key, ""), later);
    if st.at.section.None? {
      BrokenStays(p, Written(st, key, ""), later);
    }
    hide Parse, HeadState, SavedState, Written, LaterLines, IsOptionName;
  }

  lemma OneStep(p: Parser, st: State, line: string)
    ensures Parse(p, st, [line]) == Step(p, st, line)
  {
    hide Step;
    assert [line][1..] == [];
  }

  lemma StartIsGood()
    ensures Good(START)
  {
  }

  /** The lines of the option in a section after a save: those of the saved value, if
      it was written there, or those there before, with what later lines do to them. */
  lemma SavedEntry(
      p: Parser, text: string, key: string, value: string, oldKey: Option<string>, crlf: bool, section: string)
    requires IsOptionName(p, key) && StaysOneLine(value, crlf)
    requires HeadState(p, text, key, oldKey).at.section.Some?
    ensures var st, q := HeadState(p, text, key, oldKey), (section, key);
      Entry(SavedState(p, text, key, value, oldKey, crlf), q) ==
        Changed(if st.at.section == Some(section) then Some([Strip(value)]) else Entry(st, q),
                LaterChange(p, text, key, oldKey, section))
  {
    SavedInParts(p, text, key, value, oldKey, crlf);
    var st, q := HeadState(p, text, key, oldKey), (section, key);
    StartIsGood();
    EntryAfter(p, START, HeadLines(text, key, oldKey), q);
    var w := Written(st, key, value);
    assert Good(w) && w.at == Place(st.at.section, key, 0);
    assert Entry(w, q) == if st.at.section == Some(section) then Some([Strip(value)]) else Entry(st, q);
    EntryAfter(p, w, LaterLines(text, key, oldKey), q);
    hide Entry, Parse, Written, Later, Changed, Strip, IsOptionName;
  }

  /** The text of an option as `[config]` sees it. */
  function TextOf(p: Parser, st: State, key: string): Option<string> {
    match (Entry(st, (CONFIG, key)), Entry(st, (DEFAULT, key)))
    case (Some(lines), _) => Some(Joined(lines))
    case (None, Some(lines)) => Some(Joined(lines))
    case (None, None) => if key in p.defaults then Some(p.defaults[key]) else None
  }

  lemma TextIsOption(p: Parser, st: State, key: string)
    ensures TextOf(p, st, key) == if key in Options(p, st) then Some(Options(p, st)[key]) else None
  {
    hide Joined;
    assert (CONFIG, key) in st.entries <==> key in NamesIn(st, CONFIG) by {
      assert (CONFIG, key).0 == CONFIG && (CONFIG, key).1 == key;
    }
    assert (DEFAULT, key) in st.entries <==> key in NamesIn(st, DEFAULT) by {
      assert (DEFAULT, key).0 == DEFAULT && (DEFAULT, key).1 == key;
    }
  }

  /** The text of an option in a file: none when the file does not parse. */
  function InForce(p: Parser, text: string, key: string): Option<string> {
    var st := Parse(p, START, Lines(text));
    if Parses(st) then TextOf(p, st, key) else None
  }

  // ----- When a saved value is in force -----

  predicate AllBlank(lines: seq<string>) {
    forall i :: 0 <= i < |lines| ==> lines[i] == ""
  }

  /** The file will parse, the line is written into `[config]`, or into `[DEFAULT]` with
      no such option in `[config]`, and no later line assigns the option or goes on
      with its text. */
  predicate Takes(p: Parser, text: string, key: string, oldKey: Option<string>) {
    var st := HeadState(p, text, key, oldKey);
    Parses(Rewritten(p, text, key, oldKey)) && st.at.section.Some? &&
    var section := st.at.section.value;
    var change := LaterChange(p, text, key, oldKey, section);
    && !change.replaced && AllBlank(change.more)
    && (|| section == CONFIG
        || (section == DEFAULT && (CONFIG, key) !in st.entries && !LaterChange(p, text, key, oldKey, CONFIG).replaced))
  }

  lemma {:induction false} BlankLinesJoined(v: string, more: seq<string>)
    requires AllBlank(more)
    ensures Joined([v] + more) == TrimRight(v)
  {
    if more == [] {
      assert [v] + more == [v];
    } else {
      var init := more[..|more| - 1];
      BlankLinesJoined(v, init);
      assert [v] + more == ([v] + init) + [""];
      JoinedAppend([v] + init, "");
      TrimRightAppend(JoinedLines([v] + init), "\n");
    }
  }

  lemma {:induction false} JoinedAppend(lines: seq<string>, x: string)
    requires lines != []
    ensures JoinedLines(lines + [x]) == JoinedLines(lines) + "\n" + x
  {
    if |lines| == 1 {
      assert (lines + [x])[1..] == [x];
    } else {
      assert (lines + [x])[1..] == lines[1..] + [x];
      JoinedAppend(lines[1..], x);
      assert lines[0] + "\n" + (JoinedLines(lines[1..]) + "\n" + x)
        == lines[0] + "\n" + JoinedLines(lines[1..]) + "\n" + x;
    }
  }

  lemma TrimRightAppend(s: string, end: string)
    requires end == "\n"
    ensures TrimRight(s + end + "") == TrimRight(s)
  {
    assert s + end + "" == s + end && (s + end)[..|s|] == s;
  }

  /** A stripped text, or none. */
  predicate EndsInText(x: string) {
    x == "" || !IsSpace(x[|x| - 1])
  }

  lemma StripEnds(s: string)
    ensures EndsInText(Strip(s)) && TrimRight(Strip(s)) == Strip(s)
  {
    TrimRightShape(SkipSpace(s));
  }

  lemma {:induction false} LaterEnds(p: Parser, at: Place, lines: seq<string>, q: (string, string))
    ensures forall i :: 0 <= i < |Later(p, at, lines, q).more| ==> EndsInText(Later(p, at, lines, q).more[i])
    decreases |lines|
  {
    if lines != [] {
      var kind := KindOf(p, at, lines[0]);
      LaterEnds(p, Move(at, lines[0], kind), lines[1..], q);
      KindEnds(p, at, lines[0]);
      hide KindOf, EndsInText, Move, Target;
      assert EndsInText("") by { EmptyEnds(); }
    }
  }

  lemma EmptyEnds()
    ensures EndsInText("")
  {
  }

  lemma KindEnds(p: Parser, at: Place, line: string)
    ensures match KindOf(p, at, line)
      case More(text) => EndsInText(text)
      case Assign(_, text) => EndsInText(text)
      case _ => true
  {
    var s := Strip(line);
    StripEnds(line);
    StripEnds(s[if |Until(s, IsDelimiter)| < |s| then |Until(s, IsDelimiter)| + 1 else 0..]);
    hide Strip, EndsInText, Header, Continues;
  }

  lemma TextIsKept(s: string, x: string)
    requires x != "" && EndsInText(x)
    ensures TrimRight(s + x) != ""
  {
    assert (s + x)[|s + x| - 1] == x[|x| - 1];
  }

  /** Stripped lines that are nothing together are nothing each. */
  lemma {:induction false} JoinedEmpty(lines: seq<string>)
    requires forall i :: 0 <= i < |lines| ==> EndsInText(lines[i])
    requires Joined(lines) == ""
    ensures AllBlank(lines)
  {
    if lines != [] {
      var n := |lines| - 1;
      var x := lines[n];
      assert lines == lines[..n] + [x];
      if n == 0 {
        TrimRightShape(x);
        assert JoinedLines(lines) == x;
      } else {
        JoinedAppend(lines[..n], x);
        var before := JoinedLines(lines[..n]);
        if x != "" {
          TextIsKept(before + "\n", x);
          assert false;
        }
        TrimRightAppend(before, "\n");
        JoinedEmpty(lines[..n]);
      }
    }
  }

  /** The text `[config]` sees for an option when a value is written where the parser
      is in `st`, and later lines change the option there and in `[DEFAULT]`: a text
      of its own hides the one from `[DEFAULT]`. */
  function Outcome(p: Parser, st: State, key: string, value: string, own: Change, shared: Change): Option<string> {
    var here := Some([Strip(value)]);
    match (Changed(if st.at.section == Some(CONFIG) then here else Entry(st, (CONFIG, key)), own),
           Changed(if st.at.section == Some(DEFAULT) then here else Entry(st, (DEFAULT, key)), shared))
    case (Some(lines), _) => Some(Joined(lines))
    case (None, Some(lines)) => Some(Joined(lines))
    case (None, None) => if key in p.defaults then Some(p.defaults[key]) else None
  }

  /** The text in force after any save: none if the file does not parse; else the
      saved value, space at its ends gone, with the lines that go on with it, unless a
      later line assigns the option again; and from `[DEFAULT]` only if `[config]` has
      none of its own. */
  lemma SavedTextInForce(p: Parser, text: string, key: string, value: string, oldKey: Option<string>, crlf: bool)
    requires IsOptionName(p, key) && StaysOneLine(value, crlf)
    ensures InForce(p, Save(text, key, value, oldKey, crlf), key) ==
      if !Parses(Rewritten(p, text, key, oldKey)) then None else
        Outcome(p, HeadState(p, text, key, oldKey), key, value,
                LaterChange(p, text, key, oldKey, CONFIG), LaterChange(p, text, key, oldKey, DEFAULT))
  {
    SavedParsesIff(p, text, key, value, oldKey, crlf);
    if Parses(Rewritten(p, text, key, oldKey)) {
      SavedEntry(p, text, key, value, oldKey, crlf, CONFIG);
      SavedEntry(p, text, key, value, oldKey, crlf, DEFAULT);
    }
    hide Entry, Changed, LaterChange, HeadState, Strip, Joined, IsOptionName, Parses, Rewritten;
  }

  lemma TakesInForce(p: Parser, text: string, key: string, value: string, oldKey: Option<string>, crlf: bool)
    requires IsOptionName(p, key) && StaysOneLine(value, crlf) && Takes(p, text, key, oldKey)
    ensures InForce(p, Save(text, key, value, oldKey, crlf), key) == Some(Strip(value))
  {
    SavedTextInForce(p, text, key, value, oldKey, crlf);
    var section := HeadState(p, text, key, oldKey).at.section.value;
    BlankLinesJoined(Strip(value), LaterChange(p, text, key, oldKey, section).more);
    StripEnds(value);
    hide LaterChange, HeadState, Strip, Joined, IsOptionName, Save, InForce, Parses, Rewritten;
  }

  lemma Letters(crlf: bool)
    ensures Strip("") == "" && Strip("x") == "x" && StaysOneLine("", crlf) && StaysOneLine("x", crlf)
  {
    assert "x"[..0] == "";
  }

  /** Whatever value is saved is in force afterwards, if and only if the place it is
      written to is one the parser takes it from. */
  lemma SavedValueInForceIff(p: Parser, text: string, key: string, oldKey: Option<string>, crlf: bool)
    requires IsOptionName(p, key)
    ensures Takes(p, text, key, oldKey) <==>
      forall value :: StaysOneLine(value, crlf) ==>
        InForce(p, Save(text, key, value, oldKey, crlf), key) == Some(Strip(value))
  {
    if Takes(p, text, key, oldKey) {
      forall value | StaysOneLine(value, crlf)
        ensures InForce(p, Save(text, key, value, oldKey, crlf), key) == Some(Strip(value))
      {
        TakesInForce(p, text, key, value, oldKey, crlf);
      }
    } else {
      NotTaken(p, text, key, oldKey, crlf);
      Letters(crlf);
      hide *;
    }
  }

  /** Otherwise one of two values is not. */
  lemma NotTaken(p: Parser, text: string, key: string, oldKey: Option<string>, crlf: bool)
    requires IsOptionName(p, key) && !Takes(p, text, key, oldKey)
    ensures !(&& InForce(p, Save(text, key, "", oldKey, crlf), key) == Some("")
              && InForce(p, Save(text, key, "x", oldKey, crlf), key) == Some("x"))
  {
    Letters(crlf);
    if Parses(Rewritten(p, text, key, oldKey)) {
      NotTakenFrom(p, text, key, oldKey, crlf);
    } else {
      SavedTextInForce(p, text, key, "", oldKey, crlf);
    }
    hide *;
  }

  lemma NotTakenFrom(p: Parser, text: string, key: string, oldKey: Option<string>, crlf: bool)
    requires IsOptionName(p, key) && !Takes(p, text, key, oldKey)
    requires Parses(Rewritten(p, text, key, oldKey))
    ensures !(&& InForce(p, Save(text, key, "", oldKey, crlf), key) == Some("")
              && InForce(p, Save(text, key, "x", oldKey, crlf), key) == Some("x"))
  {
    Letters(crlf);
    SavedTextInForce(p, text, key, "", oldKey, crlf);
    SavedTextInForce(p, text, key, "x", oldKey, crlf);
    var st := HeadState(p, text, key, oldKey);
    var own, shared := LaterChange(p, text, key, oldKey, CONFIG), LaterChange(p, text, key, oldKey, DEFAULT);
    var at, later := Place(st.at.section, key, 0), LaterLines(text, key, oldKey);
    LaterEnds(p, at, later, (CONFIG, key));
    LaterEnds(p, at, later, (DEFAULT, key));
    BlankIfNothing(own.more);
    BlankIfNothing(shared.more);
    SavedParsesIff(p, text, key, "", oldKey, crlf);
    hide Parses, Rewritten, HeadState, LaterChange, Joined, IsOptionName, Save, InForce, Later, LaterLines;
    hide EndsInText, AllBlank, Strip;
    assert CONFIG != DEFAULT by { SectionsDiffer(); }
  }

  lemma SectionsDiffer()
    ensures CONFIG != DEFAULT
  {
    assert |CONFIG| != |DEFAULT|;
  }

  lemma BlankIfNothing(more: seq<string>)
    requires forall i :: 0 <= i < |more| ==> EndsInText(more[i])
    ensures Joined([""] + more) == "" ==> AllBlank(more)
  {
    if Joined([""] + more) == "" {
      EmptyEnds();
      hide EndsInText;
      JoinedEmpty([""] + more);
      assert forall i :: 0 <= i < |more| ==> more[i] == ([""] + more)[i + 1];
    }
  }

  // ----- Percent signs -----

  function Percents(s: string): nat {
    if s == "" then 0 else (if s[0] == '%' then 1 else 0) + Percents(s[1..])
  }

  lemma {:induction false} PercentsAppend(a: string, b: string)
    ensures Percents(a + b) == Percents(a) + Percents(b)
  {
    if a == "" {
      assert a + b == b;
    } else {
      PercentsAppend(a[1..], b);
      assert (a + b)[1..] == a[1..] + b;
    }
  }

  lemma {:induction false} NoPercents(s: string)
    ensures Percents(s) == 0 <==> '%' !in s
  {
    if s != "" {
      NoPercents(s[1..]);
      assert s == [s[0]] + s[1..];
    }
  }

  lemma PercentsOfPart(s: string, i: nat, j: nat)
    requires i <= j <= |s|
    ensures Percents(s[i..j]) <= Percents(s)
  {
    assert s == s[..i] + s[i..j] + s[j..];
    PercentsAppend(s[..i] + s[i..j], s[j..]);
    PercentsAppend(s[..i], s[i..j]);
  }

  /** The options a text refers to. */
  function References(p: Parser, s: string): set<string> {
    if s == "" then {}
    else if s[0] != '%' then References(p, s[1..])
    else if "%%" <= s then References(p, s[2..])
    else match Reference(s)
      case None => {}
      case Some(name) => {p.fold(name)} + References(p, s[|name| + 4..])
  }

  lemma {:induction false} ReferencesNeedPercent(p: Parser, s: string)
    requires '%' !in s
    ensures References(p, s) == {}
  {
    if s != "" {
      ReferencesNeedPercent(p, s[1..]);
    }
  }

  lemma {:induction false} ExpandPlain(p: Parser, options: map<string, string>, s: string, depth: nat)
    requires '%' !in s && depth <= MAX_INTERPOLATION_DEPTH
    ensures Expand(p, options, s, depth) == Ok(s)
    decreases |s|
  {
    if s != "" {
      assert s[0] != '%';
      ExpandPlain(p, options, s[1..], depth);
      assert s == [s[0]] + s[1..];
    }
  }

  lemma ReferenceParts(s: string)
    requires s != "" && s[0] == '%' && Reference(s).Some?
    ensures var k := |Reference(s).value| + 4;
      k <= |s| && Percents(s) == Percents(s[..k]) + Percents(s[k..]) && Percents(s[..k]) >= 1
  {
    var k := |Reference(s).value| + 4;
    assert s == s[..k] + s[k..];
    PercentsAppend(s[..k], s[k..]);
  }

  /** Expanding removes percent signs, if what is referred to has none. */
  lemma {:induction false} ExpandShrinks(p: Parser, options: map<string, string>, s: string, depth: nat)
    requires forall n :: n in References(p, s) && n in options ==> '%' !in options[n]
    requires Expand(p, options, s, depth).Ok?
    ensures Percents(Expand(p, options, s, depth).value) <= Percents(s)
    ensures '%' in s ==> Percents(Expand(p, options, s, depth).value) < Percents(s)
    decreases |s|
  {
    if s == "" {
    } else if s[0] != '%' {
      ExpandShrinks(p, options, s[1..], depth);
      PercentsAppend([s[0]], Expand(p, options, s[1..], depth).value);
      assert s == [s[0]] + s[1..];
    } else if "%%" <= s {
      ExpandShrinks(p, options, s[2..], depth);
      PercentsAppend("%", Expand(p, options, s[2..], depth).value);
      assert s[1..][1..] == s[2..] && s[1] == '%';
    } else {
      var name := Reference(s).value;
      var n, rest := p.fold(name), s[|name| + 4..];
      ReferenceParts(s);
      assert n in References(p, s) && n in options;
      NoPercents(options[n]);
      ExpandShrinks(p, options, rest, depth);
      PercentsAppend(options[n], Expand(p, options, rest, depth).value);
    }
  }

  /** A text that refers to itself is never expanded: the depth runs out. */
  lemma {:induction false} SelfReference(p: Parser, options: map<string, string>, key: string, s: string, depth: nat)
    requires key in options && key in References(p, options[key]) && key in References(p, s)
    ensures Expand(p, options, s, depth).Err?
    decreases MAX_INTERPOLATION_DEPTH + 1 - depth, |s|
  {
    if depth <= MAX_INTERPOLATION_DEPTH {
      if s[0] != '%' {
        SelfReference(p, options, key, s[1..], depth);
      } else if "%%" <= s {
        SelfReference(p, options, key, s[2..], depth);
      } else {
        var name := Reference(s).value;
        if p.fold(name) == key {
          if '%' !in options[key] {
            ReferencesNeedPercent(p, options[key]);
            assert false;
          }
          SelfReference(p, options, key, options[key], depth + 1);
        } else {
          SelfReference(p, options, key, s[|name| + 4..], depth);
        }
      }
    }
  }

  // ----- Reading a saved value back -----

  /** Values without space at the ends, comment marks, percent signs, or leading
      quotes that close. */
  predicate IsReadable(value: string) {
    && Strip(value) == value && '%' !in value && ';' !in value && '#' !in value
    && !IsQuoted(value, '"') && !IsQuoted(value, '\'')
  }

  lemma StripOfStripped(value: string)
    ensures SkipSpace(Strip(value)) == Strip(value)
  {
    SkipSpaceShape(value);
    TrimRightShape(SkipSpace(value));
    if Strip(value) != "" {
      assert Strip(value)[0] == SkipSpace(value)[0];
    }
  }

  lemma CleanedSameIff(value: string)
    ensures Cleaned(Strip(value)) == Ok(value) <==>
      && Strip(value) == value && ';' !in value && '#' !in value
      && !IsQuoted(value, '"') && !IsQuoted(value, '\'')
  {
    StripShorter(value);
    StripOfStripped(value);
    var v := Strip(value);
    var u := Until(v, IsCommentMark);
    StripShorter(u);
    hide Strip, SkipSpace;
    assert forall c :: IsCommentMark(c) <==> c == ';' || c == '#';
    if |u| < |v| {
      assert v[|u|] in v;
    }
  }

  lemma PercentsOfStrip(s: string)
    ensures Percents(Strip(s)) <= Percents(s)
  {
    SkipSpaceShape(s);
    var t := SkipSpace(s);
    TrimRightShape(t);
    PercentsOfPart(s, |s| - |t|, |s|);
    assert s[|s| - |t|..|s|] == t;
    PercentsOfPart(t, 0, |TrimRight(t)|);
    assert t[0..|TrimRight(t)|] == TrimRight(t);
  }

  lemma PercentsOfInside(text: string)
    requires text != "" && Inside(text).Ok?
    ensures Percents(Inside(text).value) <= Percents(text)
  {
    var r := Inside(text).value;
    assert r <= text[1..];
    PercentsOfPart(text, 1, 1 + |r|);
    assert text[1..1 + |r|] == text[1..][..|r|] == r;
  }

  /** Cleaning adds no percent sign. */
  lemma CleanedPercents(x: string)
    requires Cleaned(x).Ok?
    ensures Percents(Cleaned(x).value) <= Percents(x)
  {
    SkipSpaceShape(x);
    var t := SkipSpace(x);
    PercentsOfPart(x, |x| - |t|, |x|);
    assert x[|x| - |t|..|x|] == t;
    if IsQuoted(t, '"') {
      PercentsOfInside(t);
    } else if IsQuoted(x, '\'') {
      PercentsOfInside(x);
    } else {
      var u := Until(x, IsCommentMark);
      PercentsOfStrip(u);
      PercentsOfPart(x, 0, |u|);
      assert x[0..|u|] == u;
    }
  }

  /** Whatever the value refers to, other than itself, has no percent sign. */
  ghost predicate PlainReferences(p: Parser, options: map<string, string>, key: string, s: string) {
    forall n :: n in References(p, s) && n in options && n != key ==> '%' !in options[n]
  }

  lemma ReadOneIff(p: Parser, options: map<string, string>, key: string, value: string)
    requires key in options && options[key] == Strip(value)
    requires PlainReferences(p, options, key, Strip(value))
    ensures ReadOne(p, options, key) == Ok(value) <==> IsReadable(value)
  {
    var s := Strip(value);
    if '%' !in s {
      ExpandPlain(p, options, s, 1);
      CleanedSameIff(value);
    } else if key in References(p, s) {
      SelfReference(p, options, key, s, 1);
    } else {
      var x := Expand(p, options, s, 1);
      if x.Ok? {
        ExpandShrinks(p, options, s, 1);
        PercentsOfStrip(value);
        if Cleaned(x.value).Ok? {
          CleanedPercents(x.value);
        }
      }
      hide Expand, Cleaned, Strip, Percents, References;
    }
  }

  /** Every option but one can be read. */
  ghost predicate OthersRead(p: Parser, options: map<string, string>, key: string) {
    forall n :: n in options && n != key ==> Readable(p, options, n)
  }

  /** No other option refers to the key. */
  ghost predicate Unreferred(p: Parser, options: map<string, string>, key: string) {
    forall n :: n in options && n != key ==> key !in References(p, options[n])
  }

  lemma {:induction false} ExpandUnreferred(
      p: Parser, options: map<string, string>, key: string, v: string, s: string, depth: nat)
    requires Unreferred(p, options, key) && key in options && key !in References(p, s)
    ensures Expand(p, options[key := v], s, depth) == Expand(p, options, s, depth)
    decreases MAX_INTERPOLATION_DEPTH + 1 - depth, |s|
  {
    if depth <= MAX_INTERPOLATION_DEPTH && s != "" {
      if s[0] != '%' {
        ExpandUnreferred(p, options, key, v, s[1..], depth);
      } else if "%%" <= s {
        ExpandUnreferred(p, options, key, v, s[2..], depth);
      } else if Reference(s).Some? {
        var n, rest := p.fold(Reference(s).value), s[|Reference(s).value| + 4..];
        assert n != key;
        if n in options && '%' in options[n] {
          ExpandUnreferred(p, options, key, v, options[n], depth + 1);
        }
        ExpandUnreferred(p, options, key, v, rest, depth);
      }
    }
  }

  /** Then the others can be read whatever the option's text is. */
  lemma OthersUnaffected(p: Parser, options: map<string, string>, key: string, v: string)
    requires Unreferred(p, options, key) && key in options
    ensures OthersRead(p, options[key := v], key) <==> OthersRead(p, options, key)
  {
    forall n | n in options && n != key ensures Readable(p, options[key := v], n) <==> Readable(p, options, n) {
      ExpandUnreferred(p, options, key, v, options[n], 1);
      hide Expand, Cleaned, References;
    }
    hide Readable;
  }

  /** The options after a save are those after saving the empty value, with the value
      in its place. */
  lemma SavedOptions(p: Parser, text: string, key: string, value: string, oldKey: Option<string>, crlf: bool)
    requires IsOptionName(p, key) && StaysOneLine(value, crlf) && Takes(p, text, key, oldKey)
    ensures key in Options(p, Rewritten(p, text, key, oldKey))
    ensures Options(p, SavedState(p, text, key, value, oldKey, crlf)) ==
      Options(p, Rewritten(p, text, key, oldKey))[key := Strip(value)]
  {
    Letters(crlf);
    TakesInForce(p, text, key, "", oldKey, crlf);
    TakesInForce(p, text, key, value, oldKey, crlf);
    SavedInParts(p, text, key, "", oldKey, crlf);
    var st, st' := Rewritten(p, text, key, oldKey), SavedState(p, text, key, value, oldKey, crlf);
    forall n ensures TextOf(p, st', n) == if n == key then Some(Strip(value)) else TextOf(p, st, n) {
      if n != key {
        OtherText(p, text, key, value, oldKey, crlf, n);
      }
    }
    forall n ensures TextOf(p, st, n) == if n in Options(p, st) then Some(Options(p, st)[n]) else None {
      TextIsOption(p, st, n);
    }
    forall n ensures TextOf(p, st', n) == if n in Options(p, st') then Some(Options(p, st')[n]) else None {
      TextIsOption(p, st', n);
    }
    hide Options, TextOf, Strip, Parse, IsOptionName, Takes, Rewritten;
    SameOptions(Options(p, st'), Options(p, st), key, Strip(value), n => TextOf(p, st, n), n => TextOf(p, st', n));
  }

  lemma SameOptions(
      after: map<string, string>, before: map<string, string>, key: string, v: string,
      was: string -> Option<string>, now: string -> Option<string>)
    requires forall n :: was(n) == if n in before then Some(before[n]) else None
    requires forall n :: now(n) == if n in after then Some(after[n]) else None
    requires forall n :: now(n) == if n == key then Some(v) else was(n)
    ensures after == before[key := v]
  {
  }

  lemma OtherText(
      p: Parser, text: string, key: string, value: string, oldKey: Option<string>, crlf: bool, n: string)
    requires IsOptionName(p, key) && StaysOneLine(value, crlf) && n != key
    ensures TextOf(p, SavedState(p, text, key, value, oldKey, crlf), n) == TextOf(p, Rewritten(p, text, key, oldKey), n)
  {
    OtherEntry(p, text, key, value, oldKey, crlf, (CONFIG, n));
    OtherEntry(p, text, key, value, oldKey, crlf, (DEFAULT, n));
    hide Entry, SavedState, Rewritten, IsOptionName;
  }

  lemma OtherEntry(
      p: Parser, text: string, key: string, value: string, oldKey: Option<string>, crlf: bool, q: (string, string))
    requires IsOptionName(p, key) && StaysOneLine(value, crlf) && q.1 != key
    ensures Entry(SavedState(p, text, key, value, oldKey, crlf), q) == Entry(Rewritten(p, text, key, oldKey), q)
  {
    SavedInParts(p, text, key, value, oldKey, crlf);
    var st, later := HeadState(p, text, key, oldKey), LaterLines(text, key, oldKey);
    StartIsGood();
    EntryAfter(p, START, HeadLines(text, key, oldKey), q);
    var w, w' := Written(st, key, value), Written(st, key, "");
    assert Good(w) && Good(w') && w.at == w'.at && Entry(w, q) == Entry(w', q);
    EntryAfter(p, w, later, q);
    EntryAfter(p, w', later, q);
    hide Entry, Parse, Written, Later, Changed, Strip, IsOptionName;
  }

  /** What the configuration gives for a key. */
  function Configured(p: Parser, text: string, key: string): Option<string> {
    match ReadConfig(p, text)
    case Some(values) => if key in values then Some(values[key]) else None
    case None => None
  }

  /** A value saved where it takes effect is read back as it was saved if and only if
      it is readable and the rest of the file is: comment marks cut it, leading quotes
      are taken off, percent signs expand or raise.  What the rest of the file is can
      be told before the save, and without the value if nothing refers to it. */
  lemma ReadBackIff(p: Parser, text: string, key: string, value: string, oldKey: Option<string>, crlf: bool)
    requires IsOptionName(p, key) && StaysOneLine(value, crlf) && Takes(p, text, key, oldKey)
    requires PlainReferences(p, Options(p, Rewritten(p, text, key, oldKey)), key, Strip(value))
    ensures var options := Options(p, Rewritten(p, text, key, oldKey));
      && (Configured(p, Save(text, key, value, oldKey, crlf), key) == Some(value) <==>
          IsReadable(value) && OthersRead(p, options[key := Strip(value)], key))
      && (Unreferred(p, options, key) ==>
          (OthersRead(p, options[key := Strip(value)], key) <==> OthersRead(p, options, key)))
  {
    var options := Options(p, Rewritten(p, text, key, oldKey));
    SavedOptions(p, text, key, value, oldKey, crlf);
    TakesParses(p, text, key, value, oldKey, crlf);
    ReadOneIff(p, options[key := Strip(value)], key, value);
    ConfiguredIff(p, Save(text, key, value, oldKey, crlf), key, value);
    if Unreferred(p, options, key) {
      OthersUnaffected(p, options, key, Strip(value));
    }
    hide Configured, Save, Parse, Options, IsReadable, ReadOne, OthersRead, PlainReferences, Strip, Rewritten, Takes;
    hide Unreferred, Parses, IsOptionName, StaysOneLine, Lines;
  }

  lemma TakesParses(p: Parser, text: string, key: string, value: string, oldKey: Option<string>, crlf: bool)
    requires IsOptionName(p, key) && StaysOneLine(value, crlf) && Takes(p, text, key, oldKey)
    ensures Parses(SavedState(p, text, key, value, oldKey, crlf))
  {
    SavedParsesIff(p, text, key, value, oldKey, crlf);
    hide Parses, SavedState, IsOptionName;
  }

  /** A key of a file that parses has a value if that one and all others can be read. */
  lemma ConfiguredIff(p: Parser, text: string, key: string, value: string)
    requires Parses(Parse(p, START, Lines(text))) && key in Options(p, Parse(p, START, Lines(text)))
    ensures var options := Options(p, Parse(p, START, Lines(text)));
      Configured(p, text, key) == Some(value) <==> ReadOne(p, options, key) == Ok(value) && OthersRead(p, options, key)
  {
    var options := Options(p, Parse(p, START, Lines(text)));
    hide Parse, Options, Lines, ReadOne, Parses;
    if Configured(p, text, key) == Some(value) {
      assert Readable(p, options, key);
    }
  }

  lemma ReferenceToX()
    ensures Reference("%(x)s") == Some("x")
  {
    var s := "x)s";
    assert "%(x)s"[2..] == s && s[1..] == ")s" && s[0] == 'x' && ")s"[0] == ')';
    assert Until(")s", c => c == ')') == "";
    assert Until(s, c => c == ')') == "x";
  }

  lemma QuotedPercent(p: Parser, options: map<string, string>)
    ensures Expand(p, options, "%%(x)s", 2) == Ok("%(x)s")
  {
    var s := "%%(x)s";
    assert s[2..] == "(x)s" && s[0] == '%' && s[..2] == "%%";
    ExpandPlain(p, options, "(x)s", 2);
    hide Reference;
    assert "%" + "(x)s" == "%(x)s";
  }

  lemma ReferenceExpanded(p: Parser, options: map<string, string>)
    requires p.fold("x") == "x" && "x" in options && options["x"] == "%%(x)s"
    ensures Expand(p, options, "%(x)s", 1) == Ok("%(x)s")
  {
    var s := "%(x)s";
    ReferenceToX();
    QuotedPercent(p, options);
    assert s[0] == '%' && s[1] == '(' && !("%%" <= s) && s[|"x"| + 4..] == "";
    assert '%' in options["x"] by { assert options["x"][0] == '%'; }
    ExpandPlain(p, options, "", 1);
    hide Reference;
    assert "%(x)s" + "" == "%(x)s";
  }

  lemma QuotedIsClean()
    ensures Cleaned("%(x)s") == Ok("%(x)s")
  {
    var s := "%(x)s";
    assert s[0] == '%' && s[4] == 's' && !IsSpace('%') && !IsSpace('s');
    assert forall i :: 0 <= i < |s| ==> !IsCommentMark(s[i]);
    var u := Until(s, IsCommentMark);
    assert u == s;
  }

  /** The hypothesis on references is needed: an option whose text quotes a reference
      to itself makes that very reference come back. */
  lemma QuotedReference(p: Parser, options: map<string, string>)
    requires p.fold("x") == "x"
    requires "x" in options && options["x"] == "%%(x)s" && "k" in options && options["k"] == "%(x)s"
    ensures ReadOne(p, options, "k") == Ok("%(x)s")
  {
    ReferenceExpanded(p, options);
    QuotedIsClean();
    hide Expand, Cleaned;
  }

  // ----- Values and keys that are lost -----

  lemma {:induction false} LonePercent(p: Parser, options: map<string, string>, a: string, b: string, depth: nat)
    requires '%' !in a && (b == "" || (b[0] != '%' && b[0] != '('))
    ensures Expand(p, options, a + "%" + b, depth).Err?
    decreases |a|
  {
    var s := a + "%" + b;
    if a == "" {
      assert s[0] == '%' && (|s| > 1 ==> s[1] == b[0]);
    } else {
      assert s[1..] == a[1..] + "%" + b;
      LonePercent(p, options, a[1..], b, depth);
    }
  }

  /** After a value with a percent sign that stands alone, such as `50%`, nothing of
      the configuration can be read. */
  lemma LonePercentRaises(
      p: Parser, text: string, key: string, value: string, oldKey: Option<string>, crlf: bool, a: string, b: string)
    requires IsOptionName(p, key) && StaysOneLine(value, crlf) && Takes(p, text, key, oldKey)
    requires Strip(value) == a + "%" + b && '%' !in a && (b == "" || (b[0] != '%' && b[0] != '('))
    ensures ReadConfig(p, Save(text, key, value, oldKey, crlf)) == None
  {
    TakesInForce(p, text, key, value, oldKey, crlf);
    var st := SavedState(p, text, key, value, oldKey, crlf);
    TextIsOption(p, st, key);
    LonePercent(p, Options(p, st), a, b, 1);
    hide Takes, Save, Parse, TextOf, Options, Expand, Strip, IsOptionName;
    assert !Readable(p, Options(p, st), key);
  }

  /** Only folded names are read: a key with an upper-case letter never is. */
  ghost predicate OnlyFolded(p: Parser, st: State) {
    forall q :: q in st.entries ==> exists name :: p.fold(name) == q.1
  }

  lemma {:induction false} OnlyFoldedAfter(p: Parser, st: State, lines: seq<string>)
    requires Good(st) && OnlyFolded(p, st)
    ensures OnlyFolded(p, Parse(p, st, lines))
    decreases |lines|
  {
    if lines != [] {
      OnlyFoldedStep(p, st, lines[0]);
      StepEntry(p, st, lines[0], ("", ""));
      OnlyFoldedAfter(p, Step(p, st, lines[0]), lines[1..]);
      hide Step, OnlyFolded, Good;
    }
  }

  lemma OnlyFoldedStep(p: Parser, st: State, line: string)
    requires Good(st) && OnlyFolded(p, st)
    ensures OnlyFolded(p, Step(p, st, line))
  {
    var kind := KindOf(p, st.at, line);
    assert kind.More? ==> Continues(st.at, line);
    if kind.Assign? {
      AssignsFolded(p, st.at, line);
    }
    hide KindOf;
  }

  lemma AssignsFolded(p: Parser, at: Place, line: string)
    requires KindOf(p, at, line).Assign?
    ensures exists name :: p.fold(name) == KindOf(p, at, line).name
  {
    var name := ReadOption(Strip(line)).value.0;
    assert p.fold(name) == KindOf(p, at, line).name;
  }

  lemma UnfoldedKeyLost(p: Parser, text: string, key: string, value: string, oldKey: Option<string>, crlf: bool)
    requires (forall name :: p.fold(name) != key) && key !in p.defaults
    ensures Configured(p, Save(text, key, value, oldKey, crlf), key) == None
  {
    var st := SavedState(p, text, key, value, oldKey, crlf);
    StartIsGood();
    OnlyFoldedAfter(p, START, Lines(Save(text, key, value, oldKey, crlf)));
    hide Save, Parse, Lines, Good;
    assert key !in NamesIn(st, CONFIG) + NamesIn(st, DEFAULT);
  }

  // ----- A written configuration -----

  /** An option with the lines of its text. */
  datatype Setting = Setting(name: string, texts: seq<string>)

  /** Lines that can be written as they are: stripped, no comment in front; only the
      first may be empty. */
  ghost predicate GoodSetting(p: Parser, s: Setting) {
    && IsOptionName(p, s.name) && s.texts != []
    && (forall x :: x in s.texts ==> NoLineEnd(x) && Strip(x) == x)
    && (forall i :: 1 <= i < |s.texts| ==> s.texts[i] != "" && s.texts[i][0] != ';' && s.texts[i][0] != '#')
  }

  /** Further lines are indented. */
  function MoreLines(texts: seq<string>): seq<string> {
    if texts == [] then [] else MoreLines(texts[..|texts| - 1]) + ["\t" + texts[|texts| - 1] + "\n"]
  }

  function SettingLines(s: Setting): seq<string>
    requires s.texts != []
  {
    [s.name + "=" + s.texts[0] + "\n"] + MoreLines(s.texts[1..])
  }

  ghost predicate GoodSettings(p: Parser, ss: seq<Setting>) {
    forall i :: 0 <= i < |ss| ==> GoodSetting(p, ss[i])
  }

  function AllSettingLines(ss: seq<Setting>): seq<string>
    requires forall i :: 0 <= i < |ss| ==> ss[i].texts != []
  {
    if ss == [] then [] else AllSettingLines(ss[..|ss| - 1]) + SettingLines(ss[|ss| - 1])
  }

  /** The lines of the last setting of that name. */
  function LastOf(ss: seq<Setting>, key: string): Option<seq<string>> {
    if ss == [] then None
    else if ss[|ss| - 1].name == key then Some(ss[|ss| - 1].texts)
    else LastOf(ss[..|ss| - 1], key)
  }

  lemma HeadingKind(p: Parser, at: Place, name: string)
    requires name != "" && ']' !in name && NoLineEnd(name) && !Continues(at, "[" + name + "]\n")
    ensures KindOf(p, at, "[" + name + "]\n") == Heading(name) && Indent("[" + name + "]\n") == 0
  {
    var line, t := "[" + name + "]\n", "[" + name + "]";
    assert line == t + "\n" && line[0] == '[' && SkipSpace(line) == line;
    TrimRightAfter(t, "\n");
    assert t[|t| - 1] == ']' && "\n"[..0] == "" && TrimRight("\n") == "";
    assert Strip(line) == t;
    assert t[1..] == name + "]";
    UntilMark(name, "]");
  }

  lemma {:induction false} UntilMark(name: string, rest: string)
    requires ']' !in name && "]" <= rest
    ensures Until(name + rest, c => c == ']') == name
  {
    if name == "" {
      assert name + rest == rest && rest[0] == ']';
    } else {
      assert name[0] in name && (name + rest)[1..] == name[1..] + rest;
      UntilMark(name[1..], rest);
    }
  }

  lemma MoreKind(p: Parser, at: Place, x: string)
    requires at.section.Some? && at.option != "" && at.indent == 0
    requires NoLineEnd(x) && Strip(x) == x && x != "" && x[0] != ';' && x[0] != '#'
    ensures KindOf(p, at, "\t" + x + "\n") == More(x)
  {
    var line := "\t" + x + "\n";
    StripShape(x);
    assert line[0] == '\t' && line[1..] == x + "\n" && SkipSpace(x + "\n") == x + "\n" by {
      assert (x + "\n")[0] == x[0];
    }
    assert SkipSpace(line) == x + "\n";
    TrimRightAfter(x, "\n");
    assert "\n"[..0] == "" && TrimRight("\n") == "";
    assert Indent(line) == 1;
    hide SkipSpace, TrimRight;
  }

  lemma StripShape(x: string)
    requires Strip(x) == x && x != ""
    ensures !IsSpace(x[0]) && !IsSpace(x[|x| - 1])
  {
    SkipSpaceShape(x);
    TrimRightShape(SkipSpace(x));
  }

  lemma SettingLineKind(p: Parser, at: Place, s: Setting)
    requires GoodSetting(p, s) && at.section.Some?
    ensures KindOf(p, at, s.name + "=" + s.texts[0] + "\n") == Assign(s.name, s.texts[0])
    ensures Indent(s.name + "=" + s.texts[0] + "\n") == 0
  {
    var v := s.texts[0];
    assert v in s.texts;
    SeenPlain(s.name + "=" + v + "\n", true);
    NewLineKind(p, at, s.name, v, true);
    hide KindOf, Indent, Strip, Seen;
  }

  lemma MoreStep(p: Parser, st: State, x: string)
    requires st.at.section.Some? && st.at.option != "" && st.at.indent == 0
    requires (st.at.section.value, st.at.option) in st.entries
    requires NoLineEnd(x) && Strip(x) == x && x != "" && x[0] != ';' && x[0] != '#'
    ensures var q := (st.at.section.value, st.at.option);
      Step(p, st, "\t" + x + "\n") == st.(entries := st.entries[q := st.entries[q] + [x]])
  {
    MoreKind(p, st.at, x);
    hide KindOf, Strip;
  }

  lemma SettingStep(p: Parser, st: State, s: Setting)
    requires GoodSetting(p, s) && st.at.section.Some?
    ensures Step(p, st, s.name + "=" + s.texts[0] + "\n") == st.(
      at := Place(st.at.section, s.name, 0),
      entries := st.entries[(st.at.section.value, s.name) := [s.texts[0]]])
  {
    SettingLineKind(p, st.at, s);
    hide KindOf, Strip, Indent;
  }

  lemma {:induction false} MoreParsed(p: Parser, st: State, texts: seq<string>)
    requires st.at.section.Some? && st.at.option != "" && st.at.indent == 0
    requires (st.at.section.value, st.at.option) in st.entries
    requires forall x :: x in texts ==>
      NoLineEnd(x) && Strip(x) == x && x != "" && x[0] != ';' && x[0] != '#'
    ensures var q := (st.at.section.value, st.at.option);
      Parse(p, st, MoreLines(texts)) == st.(entries := st.entries[q := st.entries[q] + texts])
  {
    var q := (st.at.section.value, st.at.option);
    if texts == [] {
      assert st.entries[q] + texts == st.entries[q];
      assert st.entries[q := st.entries[q]] == st.entries;
    } else {
      var init, x := texts[..|texts| - 1], texts[|texts| - 1];
      assert texts == init + [x];
      assert x in texts && MoreLines(texts) == MoreLines(init) + ["\t" + x + "\n"];
      MoreParsed(p, st, init);
      var st' := Parse(p, st, MoreLines(init));
      ParseAppend(p, st, MoreLines(init), ["\t" + x + "\n"]);
      OneStep(p, st', "\t" + x + "\n");
      MoreStep(p, st', x);
      hide *;
      assert st.entries[q] + init + [x] == st.entries[q] + texts;
      UpdatedTwice(st.entries, q, st.entries[q] + init, st.entries[q] + texts);
    }
  }

  lemma UpdatedTwice<K, V>(m: map<K, V>, k: K, u: V, v: V)
    ensures m[k := u][k := v] == m[k := v]
  {
  }

  lemma SettingParsed(p: Parser, st: State, s: Setting)
    requires GoodSetting(p, s) && st.at.section.Some?
    ensures Parse(p, st, SettingLines(s)) == st.(
      at := Place(st.at.section, s.name, 0),
      entries := st.entries[(st.at.section.value, s.name) := s.texts])
  {
    var line, q := s.name + "=" + s.texts[0] + "\n", (st.at.section.value, s.name);
    SettingStep(p, st, s);
    ParseAppend(p, st, [line], MoreLines(s.texts[1..]));
    OneStep(p, st, line);
    assert SettingLines(s) == [line] + MoreLines(s.texts[1..]) && s.name != "";
    LaterTexts(p, s);
    hide *;
    MoreParsed(p, Step(p, st, line), s.texts[1..]);
    assert [s.texts[0]] + s.texts[1..] == s.texts;
    UpdatedTwice(st.entries, q, [s.texts[0]], s.texts);
  }

  lemma LaterTexts(p: Parser, s: Setting)
    requires GoodSetting(p, s)
    ensures forall x :: x in s.texts[1..] ==> NoLineEnd(x) && Strip(x) == x && x != "" && x[0] != ';' && x[0] != '#'
  {
    hide NoLineEnd, Strip;
    forall x | x in s.texts[1..]
      ensures NoLineEnd(x) && Strip(x) == x && x != "" && x[0] != ';' && x[0] != '#'
    {
      var i :| 0 <= i < |s.texts| - 1 && s.texts[1..][i] == x;
      assert s.texts[i + 1] == x && x in s.texts;
    }
  }

  lemma {:induction false} SettingsParsed(p: Parser, st: State, ss: seq<Setting>, q: (string, string))
    requires GoodSettings(p, ss) && st.at.section.Some?
    ensures var r := Parse(p, st, AllSettingLines(ss));
      && r.at.section == st.at.section && r.sections == st.sections && r.broken == st.broken
      && (ss == [] ==> r == st) && (ss != [] ==> r.at.indent == 0)
      && Entry(r, q) ==
         if q.0 == st.at.section.value && LastOf(ss, q.1).Some? then LastOf(ss, q.1) else Entry(st, q)
  {
    if ss != [] {
      var init, s := ss[..|ss| - 1], ss[|ss| - 1];
      SettingsParsed(p, st, init, q);
      ParseAppend(p, st, AllSettingLines(init), SettingLines(s));
      SettingParsed(p, Parse(p, st, AllSettingLines(init)), s);
      hide Parse, SettingLines, GoodSetting;
    }
  }

  lemma HeadingParsed(p: Parser, st: State, name: string)
    requires name != "" && ']' !in name && NoLineEnd(name)
    ensures Parse(p, st, ["[" + name + "]\n"]) ==
      st.(at := Place(Some(name), "", 0), sections := st.sections + {name})
  {
    var line := "[" + name + "]\n";
    assert line[0] == '[' && SkipSpace(line) == line;
    HeadingKind(p, st.at, name);
    OneStep(p, st, line);
    hide KindOf, Parse;
  }

  /** A configuration written with shared and own options is read as it was written:
      every option has the text of its last setting in `[config]`, else in
      `[DEFAULT]`, else the parser's default, further lines joined to the first. */
  lemma WrittenConfigRead(p: Parser, shared: seq<Setting>, own: seq<Setting>, key: string)
    requires GoodSettings(p, shared) && GoodSettings(p, own)
    ensures
      var lines := ["[DEFAULT]\n"] + AllSettingLines(shared) + ["[config]\n"] + AllSettingLines(own);
      var st := Parse(p, START, lines);
      && Parses(st)
      && (if key in Options(p, st) then Some(Options(p, st)[key]) else None) ==
         match (LastOf(own, key), LastOf(shared, key))
         case (Some(texts), _) => Some(Joined(texts))
         case (None, Some(texts)) => Some(Joined(texts))
         case (None, None) => if key in p.defaults then Some(p.defaults[key]) else None
  {
    WrittenText(p, shared, own, key);
    TextIsOption(p, WrittenState(p, shared, own), key);
    hide *;
    assert WrittenState(p, shared, own)
      == Parse(p, START, ["[DEFAULT]\n"] + AllSettingLines(shared) + ["[config]\n"] + AllSettingLines(own)) by {
      WrittenStateIs(p, shared, own);
    }
  }

  function WrittenState(p: Parser, shared: seq<Setting>, own: seq<Setting>): State
    requires forall i :: 0 <= i < |shared| ==> shared[i].texts != []
    requires forall i :: 0 <= i < |own| ==> own[i].texts != []
  {
    var s1 := Parse(p, START, ["[DEFAULT]\n"]);
    var s2 := Parse(p, s1, AllSettingLines(shared));
    Parse(p, Parse(p, s2, ["[config]\n"]), AllSettingLines(own))
  }

  lemma WrittenStateIs(p: Parser, shared: seq<Setting>, own: seq<Setting>)
    requires forall i :: 0 <= i < |shared| ==> shared[i].texts != []
    requires forall i :: 0 <= i < |own| ==> own[i].texts != []
    ensures WrittenState(p, shared, own)
      == Parse(p, START, ["[DEFAULT]\n"] + AllSettingLines(shared) + ["[config]\n"] + AllSettingLines(own))
  {
    hide Parse, AllSettingLines;
    InFour(p, "[DEFAULT]\n", AllSettingLines(shared), "[config]\n", AllSettingLines(own));
  }

  lemma InFour(p: Parser, d: string, a: seq<string>, c: string, b: seq<string>)
    ensures Parse(p, START, [d] + a + [c] + b) == Parse(p, Parse(p, Parse(p, Parse(p, START, [d]), a), [c]), b)
  {
    hide *;
    ParseAppend(p, START, [d] + a + [c], b);
    ParseAppend(p, START, [d] + a, [c]);
    ParseAppend(p, START, [d], a);
  }

  lemma WrittenText(p: Parser, shared: seq<Setting>, own: seq<Setting>, key: string)
    requires GoodSettings(p, shared) && GoodSettings(p, own)
    ensures var st := WrittenState(p, shared, own);
      && Parses(st)
      && TextOf(p, st, key) ==
         match (LastOf(own, key), LastOf(shared, key))
         case (Some(texts), _) => Some(Joined(texts))
         case (None, Some(texts)) => Some(Joined(texts))
         case (None, None) => if key in p.defaults then Some(p.defaults[key]) else None
  {
    Headings();
    var s1 := Parse(p, START, ["[DEFAULT]\n"]);
    var s2 := Parse(p, s1, AllSettingLines(shared));
    HeadingParsed(p, START, "DEFAULT");
    HeadingParsed(p, s2, "config");
    var s3 := Parse(p, s2, ["[config]\n"]);
    hide Parse, AllSettingLines, GoodSettings, Joined, LastOf, NoLineEnd;
    SettingsParsed(p, s1, shared, (CONFIG, key));
    SettingsParsed(p, s1, shared, (DEFAULT, key));
    SettingsParsed(p, s3, own, (CONFIG, key));
    SettingsParsed(p, s3, own, (DEFAULT, key));
    SectionsDiffer();
  }

  lemma Headings()
    ensures "[DEFAULT]\n" == "[" + "DEFAULT" + "]\n" && "[config]\n" == "[" + "config" + "]\n"
    ensures ']' !in "DEFAULT" && NoLineEnd("DEFAULT") && ']' !in "config" && NoLineEnd("config")
  {
  }

  /** The same in one section of any name: only `[config]` will do. */
  lemma OtherSectionRaises(p: Parser, name: string, own: seq<Setting>)
    requires GoodSettings(p, own) && name != "" && ']' !in name && NoLineEnd(name)
    ensures Parses(Parse(p, START, ["[" + name + "]\n"] + AllSettingLines(own))) <==> name == "config"
  {
    var heading := "[" + name + "]\n";
    var s1 := Parse(p, START, [heading]);
    ParseAppend(p, START, [heading], AllSettingLines(own));
    HeadingParsed(p, START, name);
    hide Parse, AllSettingLines, GoodSettings, NoLineEnd;
    SettingsParsed(p, s1, own, (CONFIG, ""));
  }

  // ----- Lines of any file -----

  /** A stripped line with a name in brackets in front. */
  ghost predicate IsHeading(s: string) {
    exists name, rest :: name != "" && ']' !in name && s == "[" + name + ("]" + rest)
  }

  /** A stripped line with a name, `=` or `:`, and any text. */
  ghost predicate IsAssignment(s: string) {
    exists name, d, rest ::
      '=' !in name && ':' !in name && TrimRight(name) != "" && (d == '=' || d == ':') && s == name + ([d] + rest)
  }

  lemma {:induction false} UntilIs(a: string, rest: string, stops: char -> bool)
    requires (forall c :: c in a ==> !stops(c)) && (rest == "" || stops(rest[0]))
    ensures Until(a + rest, stops) == a
  {
    if a == "" {
      assert a + rest == rest;
    } else {
      assert a[0] in a && (a + rest)[1..] == a[1..] + rest;
      UntilIs(a[1..], rest, stops);
    }
  }

  lemma HeaderIff(s: string)
    ensures Header(s).Some? <==> IsHeading(s)
  {
    var stops := c => c == ']';
    if Header(s).Some? {
      var name := Until(s[1..], stops);
      assert Header(s) == Some(name);
      assert s[1..] == name + ("]" + s[|name| + 2..]);
      assert s == "[" + name + ("]" + s[|name| + 2..]);
    }
    if name, rest :| name != "" && ']' !in name && s == "[" + name + ("]" + rest) {
      assert s[1..] == name + ("]" + rest);
      UntilIs(name, "]" + rest, stops);
      assert Header(s) == Some(name);
    }
  }

  lemma OptionIff(s: string)
    ensures ReadOption(s).Some? && ReadOption(s).value.0 != "" <==> IsAssignment(s)
  {
    hide Strip, TrimRight;
    if ReadOption(s).Some? && ReadOption(s).value.0 != "" {
      var name := Until(s, IsDelimiter);
      assert s == name + ([s[|name|]] + s[|name| + 1..]);
      assert '=' !in name && ':' !in name;
    }
    if name, d, rest :|
      '=' !in name && ':' !in name && TrimRight(name) != "" && (d == '=' || d == ':') && s == name + ([d] + rest)
    {
      UntilIs(name, [d] + rest, IsDelimiter);
      assert |s| > |name|;
    }
  }

  /** Which lines make the parser raise in the end: those that are neither blank nor a
      comment, a continuation, a heading or, within a section, an assignment. */
  lemma BreaksIff(p: Parser, st: State, line: string)
    ensures var s := Strip(line);
      Step(p, st, line).broken <==>
        || st.broken
        || !(s == "" || s[0] == ';' || s[0] == '#' || Continues(st.at, line) || IsHeading(s) ||
             (st.at.section.Some? && IsAssignment(s)))
  {
    HeaderIff(Strip(line));
    OptionIff(Strip(line));
    hide Header, ReadOption, Strip, Continues;
  }

  /** A comment changes nothing, and a blank line only adds to an option that is open. */
  lemma CommentSkipped(p: Parser, st: State, line: string)
    ensures Strip(line) != "" && (Strip(line)[0] == ';' || Strip(line)[0] == '#') ==> Step(p, st, line) == st
    ensures Strip(line) == "" ==>
      if st.at.section.None? || st.at.option == "" then Step(p, st, line) == st else
        var q := (st.at.section.value, st.at.option);
        Step(p, st, line) == st.(entries := st.entries[q := (if q in st.entries then st.entries[q] else []) + [""]])
  {
  }

  // ----- Written values -----

  /** Every percent sign doubled. */
  function Escaped(s: string): string {
    if s == "" then "" else (if s[0] == '%' then "%%" else [s[0]]) + Escaped(s[1..])
  }

  /** Whatever goes wrong in a reference is the same error. */
  lemma {:induction false} ExpandErrors(p: Parser, options: map<string, string>, s: string, depth: nat)
    ensures var r := Expand(p, options, s, depth); r.Err? ==> r == Err(InterpolationError)
    decreases 11 - depth, |s|
  {
    if depth <= 10 && s != "" {
      if s[0] != '%' {
        ExpandErrors(p, options, s[1..], depth);
      } else if "%%" <= s {
        ExpandErrors(p, options, s[2..], depth);
      } else if Reference(s).Some? {
        var name := Reference(s).value;
        hide Reference;
        ReferenceFits(s);
        if p.fold(name) in options {
          ExpandErrors(p, options, options[p.fold(name)], depth + 1);
        }
        ExpandErrors(p, options, s[|name| + 4..], depth);
      }
    }
  }

  lemma ReferenceFits(s: string)
    ensures Reference(s).Some? ==> |Reference(s).value| + 4 <= |s|
  {
  }

  /** Doubled percent signs are read as single ones. */
  lemma {:induction false} EscapedExpands(p: Parser, options: map<string, string>, s: string, depth: nat)
    requires depth <= 10
    ensures Expand(p, options, Escaped(s), depth) == Ok(s)
    decreases |s|
  {
    if s != "" {
      EscapedExpands(p, options, s[1..], depth);
      var e, rest := Escaped(s), Escaped(s[1..]);
      assert s == [s[0]] + s[1..];
      if s[0] == '%' {
        assert e == "%%" + rest && e[2..] == rest && e[0] == '%';
      } else {
        assert e[0] == s[0] && e[1..] == rest;
      }
    }
  }

  /** A reference stands for the other option's text. */
  lemma ReferenceRead(p: Parser, options: map<string, string>, name: string, depth: nat)
    requires depth <= 10 && name != "" && ')' !in name
    requires p.fold(name) in options && '%' !in options[p.fold(name)]
    ensures Expand(p, options, "%(" + name + ")s", depth) == Ok(options[p.fold(name)])
  {
    var s := "%(" + name + ")s";
    assert s[0] == '%' && s[1] == '(' && s[2..] == name + ")s";
    UntilParenthesis(name, ")s");
    assert s[|name| + 3] == 's' && s[|name| + 4..] == "";
    assert !("%%" <= s);
    assert Reference(s) == Some(name);
    assert Expand(p, options, "", depth) == Ok("");
    assert options[p.fold(name)] + "" == options[p.fold(name)];
  }

  lemma {:induction false} UntilParenthesis(name: string, rest: string)
    requires ')' !in name && ")" <= rest
    ensures Until(name + rest, c => c == ')') == name
  {
    if name == "" {
      assert name + rest == rest && rest[0] == ')';
    } else {
      assert name[0] in name && (name + rest)[1..] == name[1..] + rest;
      UntilParenthesis(name[1..], rest);
    }
  }

  /** What stands in leading quotes is the value, whatever follows them; empty quotes
      raise. */
  lemma QuotedRead(quote: char, v: string, rest: string)
    requires quote == '"' || quote == '\''
    requires quote !in v
    ensures Cleaned([quote] + v + [quote] + rest) == if v == "" then Err(AttributeError) else Ok(v)
  {
    var t := [quote] + v + [quote] + rest;
    assert t[0] == quote && SkipSpace(t) == t && t[|v| + 1] == quote;
    assert t[1..] == v + ([quote] + rest) && t[1..][|v|] == quote;
    UntilQuote(quote, v, [quote] + rest);
    assert Until(t[1..], c => c == t[0]) == Until(t[1..], c => c == quote) by {
      SameStops(t[1..], c => c == t[0], c => c == quote);
    }
  }

  lemma {:induction false} SameStops(s: string, f: char -> bool, g: char -> bool)
    requires forall c :: f(c) == g(c)
    ensures Until(s, f) == Until(s, g)
  {
    if s != "" {
      SameStops(s[1..], f, g);
    }
  }

  lemma {:induction false} UntilQuote(quote: char, v: string, rest: string)
    requires quote !in v && rest != "" && rest[0] == quote
    ensures Until(v + rest, c => c == quote) == v
  {
    if v == "" {
      assert v + rest == rest;
    } else {
      assert v[0] in v && (v + rest)[1..] == v[1..] + rest;
      UntilQuote(quote, v[1..], rest);
    }
  }

  /** A quote that is not closed is part of the value. */
  lemma UnclosedQuoteRead(quote: char, v: string, rest: string)
    requires quote == '"' || quote == '\''
    requires quote !in v && ';' !in v && '#' !in v
    requires quote !in rest && (rest == "" || rest[0] == ';' || rest[0] == '#')
    ensures Cleaned([quote] + v + rest) == Ok(Strip([quote] + v))
  {
    var t := [quote] + v + rest;
    assert SkipSpace(t) == t && t[1..] == v + rest;
    UntilIs([quote] + v, rest, IsCommentMark);
  }

  /** What follows a comment mark is cut off, and space before it. */
  lemma CommentRead(v: string, mark: char, rest: string)
    requires mark == ';' || mark == '#'
    requires ';' !in v && '#' !in v && v != "" && !IsSpace(v[0]) && v[0] != '"' && v[0] != '\''
    ensures Cleaned(v + [mark] + rest) == Ok(Strip(v))
  {
    var t := v + [mark] + rest;
    assert t[0] == v[0] && SkipSpace(t) == t && t == v + ([mark] + rest);
    UntilComment(v, [mark] + rest);
  }

  lemma {:induction false} UntilComment(v: string, rest: string)
    requires ';' !in v && '#' !in v && rest != "" && (rest[0] == ';' || rest[0] == '#')
    ensures Until(v + rest, IsCommentMark) == v
  {
    if v == "" {
      assert v + rest == rest;
    } else {
      assert v[0] in v && (v + rest)[1..] == v[1..] + rest;
      UntilComment(v[1..], rest);
    }
  }

  // ----- The reader as a program -----

  /** `read_config`: parse line by line, then clean every option. */
  method ReadConfigFile(p: Parser, text: string) returns (values: Option<map<string, string>>)
    ensures values == ReadConfig(p, text)
  {
    var lines, st := Lines(text), START;
    hide Step, ReadOne, Options, Lines;
    for k := 0 to |lines|
      invariant st == Parse(p, START, lines[..k])
    {
      ParseAppend(p, START, lines[..k], [lines[k]]);
      OneStep(p, st, lines[k]);
      assert lines[..k + 1] == lines[..k] + [lines[k]];
      st := Step(p, st, lines[k]);
    }
    assert lines[..|lines|] == lines;
    if !Parses(st) {
      return None;
    }
    var options := Options(p, st);
    var cleaned: map<string, string> := map[];
    var todo := options.Keys;
    while todo != {}
      invariant todo <= options.Keys && cleaned.Keys == options.Keys - todo
      invariant forall n :: n in cleaned ==> Readable(p, options, n) && cleaned[n] == ReadOne(p, options, n).value
      decreases todo
    {
      var n :| n in todo;
      todo := todo - {n};
      var value := ReadOne(p, options, n);
      if value.Err? {
        assert !Readable(p, options, n);
        return None;
      }
      cleaned := cleaned[n := value.value];
    }
    assert cleaned.Keys == options.Keys;
    assert forall n :: n in options ==> n in cleaned;
    assert cleaned == map n | n in options :: ReadOne(p, options, n).value;
    return Some(cleaned);
  }
}
