/** Steam blobs: length-prefixed name/value lists, nested to any depth.  The writer
    and the recursive reader are those of the blob utilities; the administration
    server has a reader of its own whose test for nested blobs never succeeds. */
module Blobs {
  import opened Results
  import opened Bytes

  /** A Python dictionary in insertion order; a value is bytes or a dictionary. */
  datatype Dict = Empty | Entry(name: Bytes, value: Value, rest: Dict)
  datatype Value = Leaf(data: Bytes) | Node(dict: Dict)

  const MAGIC: Bytes := [0x01, 0x50]

  /** The reserved key `b"__slack__"`. */
  const SLACK: Bytes := [95, 95, 115, 108, 97, 99, 107, 95, 95]

  function Names(d: Dict): set<Bytes> {
    match d
    case Empty => {}
    case Entry(n, _, rest) => {n} + Names(rest)
  }

  predicate Distinct(d: Dict) {
    match d
    case Empty => true
    case Entry(n, _, rest) => n !in Names(rest) && Distinct(rest)
  }

  /** What Python can build: no key twice, at any level. */
  predicate Keyed(d: Dict) {
    match d
    case Empty => true
    case Entry(n, v, rest) => n !in Names(rest) && (v.Node? ==> Keyed(v.dict)) && Keyed(rest)
  }

  /** A value without the order of insertion, which Python's `==` ignores. */
  datatype Plainly = Raw(data: Bytes) | Table(entries: map<Bytes, Plainly>)

  function AsMap(d: Dict): map<Bytes, Plainly> {
    match d
    case Empty => map[]
    case Entry(n, v, rest) => AsMap(rest)[n := AsValue(v)]
  }

  function AsValue(v: Value): Plainly {
    match v
    case Leaf(data) => Raw(data)
    case Node(d) => Table(AsMap(d))
  }

  lemma {:induction false} AsMapKeys(d: Dict)
    ensures AsMap(d).Keys == Names(d)
  {
    match d
    case Empty =>
    case Entry(_, _, rest) => AsMapKeys(rest);
  }

  /** `d[name] = value`: an existing key keeps its place. */
  function Put(d: Dict, name: Bytes, value: Value): Dict {
    match d
    case Empty => Entry(name, value, Empty)
    case Entry(n, v, rest) => if n == name then Entry(n, value, rest) else Entry(n, v, Put(rest, name, value))
  }

  function Append(d: Dict, e: Dict): Dict {
    match d
    case Empty => e
    case Entry(n, v, rest) => Entry(n, v, Append(rest, e))
  }

  lemma {:induction false} PutNames(d: Dict, name: Bytes, value: Value)
    ensures Names(Put(d, name, value)) == Names(d) + {name}
  {
    match d
    case Empty =>
    case Entry(_, _, rest) => PutNames(rest, name, value);
  }

  /** Putting a value replaces the one there, or else adds it, for lookups; a key that
      is there keeps its place, and a new one comes last. */
  lemma {:induction false} PutStores(d: Dict, name: Bytes, value: Value)
    ensures AsMap(Put(d, name, value)) == AsMap(d)[name := AsValue(value)]
    ensures Order(Put(d, name, value)) == if name in Names(d) then Order(d) else Order(d) + [name]
  {
    match d
    case Empty =>
      assert AsMap(Empty)[name := AsValue(value)] == AsMap(Put(d, name, value));
    case Entry(n, v, rest) =>
      PutStores(rest, name, value);
  }

  /** The keys in order. */
  function Order(d: Dict): seq<Bytes> {
    match d
    case Empty => []
    case Entry(n, _, rest) => [n] + Order(rest)
  }

  lemma {:induction false} PutNew(d: Dict, name: Bytes, value: Value)
    requires name !in Names(d)
    ensures Put(d, name, value) == Append(d, Entry(name, value, Empty))
  {
    match d
    case Empty =>
    case Entry(_, _, rest) => PutNew(rest, name, value);
  }

  lemma {:induction false} AppendAssociates(d: Dict, e: Dict, f: Dict)
    ensures Append(Append(d, e), f) == Append(d, Append(e, f))
  {
    match d
    case Empty =>
    case Entry(_, _, rest) => AppendAssociates(rest, e, f);
  }

  lemma {:induction false} AppendEmpty(d: Dict)
    ensures Append(d, Empty) == d
  {
    match d
    case Empty =>
    case Entry(_, _, rest) => AppendEmpty(rest);
  }

  // ----- Writing -----

  /** The bytes of the slack value: absent means none, a dictionary is a TypeError. */
  function SlackOf(d: Dict): Option<Bytes> {
    match d
    case Empty => Some([])
    case Entry(n, v, rest) => if n != SLACK then SlackOf(rest) else if v.Leaf? then Some(v.data) else None
  }

  /** `blob_serialize`; None when a length does not fit its field. */
  function Serialize(d: Dict): Option<Bytes>
    decreases d, 1
  {
    match (Body(d), SlackOf(d))
    case (Some(body), Some(slack)) =>
      if |body| + 10 < 0x1_0000_0000 && |slack| < 0x1_0000_0000 then
        Some(MAGIC + LE(|body| + 10, 4) + LE(|slack|, 4) + body + slack)
      else None
    case _ => None
  }

  function Body(d: Dict): Option<Bytes>
    decreases d, 0
  {
    match d
    case Empty => Some([])
    case Entry(n, v, rest) =>
      if n == SLACK then Body(rest) else
      match (ValueBytes(v), Body(rest))
      case (Some(data), Some(tail)) =>
        if |n| < 0x1_0000 && |data| < 0x1_0000_0000 then
          Some(LE(|n|, 2) + LE(|data|, 4) + n + data + tail)
        else None
      case _ => None
  }

  function ValueBytes(v: Value): Option<Bytes>
    decreases v, 0
  {
    match v
    case Leaf(data) => Some(data)
    case Node(dict) => Serialize(dict)
  }

  // ----- Reading -----

  predicate LooksNested(data: Bytes) {
    |data| > 1 && data[..2] == MAGIC
  }

  /** `unpack("<LL", blobtext[2:10])`: total size and slack size */
  function Totals(b: Bytes): (r: Result<(nat, nat)>)
    ensures r.Ok? <==> |b| >= 10
  {
    var s := Slice(b, 2, 10);
    if |s| != 8 then Err(StructError) else Ok((FromLE(s[..4]), FromLE(s[4..])))
  }

  /** `unpack("<HL", blobtext[index:index + 6])`: name size and data size */
  function Sizes(b: Bytes, index: nat): (r: Result<(nat, nat)>)
    ensures r.Ok? <==> |b| >= index + 6
  {
    var s := Slice(b, index, index + 6);
    if |s| != 6 then Err(StructError) else Ok((FromLE(s[..2]), FromLE(s[2..])))
  }

  /** `blob_unserialize` on a blob that is not compressed */
  function Unserialize(b: Bytes): Result<Dict>
    decreases |b|, 1, 0
  {
    var (total, slack) :- Totals(b);
    if total + slack != |b| then Err(NameError)
    else ReadEntries(b, total, 10, if slack > 0 then Entry(SLACK, Leaf(Suffix(b, slack)), Empty) else Empty)
  }

  /** Which error the header raises: too short, or sizes that do not add up. */
  lemma HeaderErrors(b: Bytes)
    ensures |b| < 10 ==> Unserialize(b) == Err(StructError)
    ensures |b| >= 10 && FromLE(b[2..6]) + FromLE(b[6..10]) != |b| ==> Unserialize(b) == Err(NameError)
    ensures forall i, total: nat, acc :: 10 <= i < total && |b| < i + 6 ==>
      ReadEntries(b, total, i, acc) == Err(StructError)
  {
    assert |b| >= 10 ==> b[2..10][..4] == b[2..6] && b[2..10][4..] == b[6..10];
  }

  /** The loop of `blob_unserialize`, from `index` on.  Slices are clamped, so a
      field that runs past the end is merely short; a short header is an error. */
  function ReadEntries(b: Bytes, total: nat, index: nat, acc: Dict): Result<Dict>
    requires 10 <= index
    decreases |b|, 0, total - index
  {
    if index >= total then Ok(acc)
    else
      var (nameSize, dataSize) :- Sizes(b, index);
      var dataStart := index + 6 + nameSize;
      var data := Slice(b, dataStart, dataStart + dataSize);
      var value :- ReadValue(b, data);
      ReadEntries(b, total, dataStart + dataSize, Put(acc, Slice(b, index + 6, dataStart), value))
  }

  function ReadValue(b: Bytes, data: Bytes): Result<Value>
    requires |data| < |b|
    decreases |b|, 0, 0
  {
    if LooksNested(data) then
      var sub :- Unserialize(data);
      Ok(Node(sub))
    else Ok(Leaf(data))
  }

  // ----- Round trip -----

  /** Dictionaries in the form the reader builds them, at every level: no key
      twice, and slack first and not empty. */
  predicate Canonical(d: Dict)
    decreases d, 1
  {
    match d
    case Entry(n, Leaf(s), rest) => if n == SLACK then s != [] && Plain(rest) else Plain(d)
    case _ => Plain(d)
  }

  predicate Plain(d: Dict)
    decreases d, 0
  {
    match d
    case Empty => true
    case Entry(n, v, rest) => n != SLACK && n !in Names(rest) && (v.Node? ==> Canonical(v.dict)) && Plain(rest)
  }

  /** What reading makes of a written dictionary: bytes that look like a blob come
      back parsed, everything else unchanged. */
  function Reread(d: Dict): Result<Dict>
  {
    match d
    case Empty => Ok(Empty)
    case Entry(n, v, rest) =>
      if n == SLACK then
        var rest' :- Reread(rest);
        Ok(Entry(n, v, rest'))
      else
        var v' :- RereadValue(v);
        var rest' :- Reread(rest);
        Ok(Entry(n, v', rest'))
  }

  function RereadValue(v: Value): Result<Value>
  {
    match v
    case Node(d) => (var d' :- Reread(d); Ok(Node(d')))
    case Leaf(data) =>
      if LooksNested(data) then
        var d' :- Unserialize(data);
        Ok(Node(d'))
      else Ok(v)
  }

  /** No bytes value, at any depth, starts like a blob. */
  predicate Unambiguous(d: Dict) {
    match d
    case Empty => true
    case Entry(n, v, rest) =>
      (n != SLACK ==> match v case Leaf(data) => !([0x01, 0x50] <= data) case Node(d') => Unambiguous(d'))
      && Unambiguous(rest)
  }

  lemma {:induction false} RereadSameIff(d: Dict)
    ensures Reread(d) == Ok(d) <==> Unambiguous(d)
  {
    match d
    case Empty =>
    case Entry(n, v, rest) =>
      RereadSameIff(rest);
      if v.Node? {
        RereadSameIff(v.dict);
      }
  }

  lemma {:induction false} SerializedLooksNested(d: Dict)
    requires Serialize(d).Some?
    ensures LooksNested(Serialize(d).value)
  {
  }

  lemma FieldsAt(b: Bytes, index: nat, h: Bytes, k: Bytes, name: Bytes, data: Bytes, tail: Bytes)
    requires |h| == 2 && |k| == 4 && At(b, index, h + k + name + data + tail)
    ensures At(b, index, h) && At(b, index + 2, k) && At(b, index + 6, name)
    ensures At(b, index + 6 + |name|, data) && At(b, index + 6 + |name| + |data|, tail)
  {
    AtSplit(b, index, h + k + name + data, tail);
    AtSplit(b, index, h + k + name, data);
    AtSplit(b, index, h + k, name);
    AtSplit(b, index, h, k);
  }

  lemma LengthsPacked(n: nat, m: nat)
    requires n < 0x1_0000 && m < 0x1_0000_0000
    ensures FromLE(LE(n, 2)) == n && FromLE(LE(m, 4)) == m
  {
    Widths();
    LERoundTrip(n, 2);
    LERoundTrip(m, 4);
  }

  lemma SizesRead(b: Bytes, index: nat, h: Bytes, k: Bytes)
    requires |h| == 2 && |k| == 4 && At(b, index, h) && At(b, index + 2, k)
    ensures Sizes(b, index) == Ok((FromLE(h), FromLE(k)))
  {
    var s := b[index..index + 6];
    assert s[..2] == b[index..index + 2] == h;
    assert s[2..] == b[index + 2..index + 6] == k;
  }

  lemma {:induction false} ValueReread(b: Bytes, v: Value)
    requires ValueBytes(v).Some? && |ValueBytes(v).value| < |b|
    requires v.Node? ==> Canonical(v.dict)
    ensures ReadValue(b, ValueBytes(v).value) == RereadValue(v)
    decreases v, 0
  {
    if v.Node? {
      SerializedLooksNested(v.dict);
      CanonicalReread(v.dict);
    }
  }

  /** Where the fields of a written entry stand. */
  lemma EntryFields(b: Bytes, index: nat, n: Bytes, v: Value, rest: Dict)
    requires n != SLACK && Body(Entry(n, v, rest)).Some? && At(b, index, Body(Entry(n, v, rest)).value)
    ensures ValueBytes(v).Some? && Body(rest).Some?
    ensures var data := ValueBytes(v).value; var next := index + 6 + |n| + |data|;
      && |Body(Entry(n, v, rest)).value| == 6 + |n| + |data| + |Body(rest).value|
      && Sizes(b, index) == Ok((|n|, |data|))
      && At(b, index + 6, n) && At(b, index + 6 + |n|, data) && At(b, next, Body(rest).value)
  {
    var data := ValueBytes(v).value;
    var h, k := LE(|n|, 2), LE(|data|, 4);
    LengthsPacked(|n|, |data|);
    FieldsAt(b, index, h, k, n, data, Body(rest).value);
    SizesRead(b, index, h, k);
  }

  /** A dictionary read so far, continued by the result of reading the rest. */
  function Onto(acc: Dict, r: Result<Dict>): Result<Dict> {
    match r
    case Ok(d) => Ok(Append(acc, d))
    case Err(e) => Err(e)
  }

  lemma {:induction false} EntryReread(b: Bytes, total: nat, index: nat, acc: Dict, n: Bytes, v: Value, rest: Dict)
    requires 10 <= index && Plain(Entry(n, v, rest)) && Body(Entry(n, v, rest)).Some?
    requires At(b, index, Body(Entry(n, v, rest)).value) && total == index + |Body(Entry(n, v, rest)).value|
    ensures ValueBytes(v).Some? && Body(rest).Some?
    ensures var next := index + 6 + |n| + |ValueBytes(v).value|;
      && At(b, next, Body(rest).value) && total == next + |Body(rest).value|
      && ReadEntries(b, total, index, acc) ==
         match RereadValue(v)
         case Ok(v') => ReadEntries(b, total, next, Put(acc, n, v'))
         case Err(e) => Err(e)
    decreases v, 1
  {
    hide FromLE, Sizes, Slice, Serialize, ReadValue, ReadEntries;
    EntryFields(b, index, n, v, rest);
    ValueReread(b, v);
    hide *;
    OneEntry(b, total, index, acc, n, ValueBytes(v).value);
  }

  lemma {:induction false} EntriesReread(b: Bytes, total: nat, index: nat, acc: Dict, d: Dict)
    requires 10 <= index && Plain(d) && Names(acc) !! Names(d)
    requires Body(d).Some? && At(b, index, Body(d).value) && total == index + |Body(d).value|
    ensures ReadEntries(b, total, index, acc) == Onto(acc, Reread(d))
    decreases d, 0
  {
    hide FromLE, Sizes, Slice, Serialize, ValueBytes, ReadValue, Canonical;
    match d
    case Empty => AppendEmpty(acc);
    case Entry(n, v, rest) =>
      EntryReread(b, total, index, acc, n, v, rest);
      if RereadValue(v).Ok? {
        var v' := RereadValue(v).value;
        PutThenAppend(acc, n, v');
        EntriesReread(b, total, index + 6 + |n| + |ValueBytes(v).value|, Put(acc, n, v'), rest);
      }
  }

  /** One turn of the loop over an entry whose fields are known. */
  lemma OneEntry(b: Bytes, total: nat, index: nat, acc: Dict, name: Bytes, data: Bytes)
    requires 10 <= index < total && Sizes(b, index) == Ok((|name|, |data|))
    requires At(b, index + 6, name) && At(b, index + 6 + |name|, data)
    ensures ReadEntries(b, total, index, acc) ==
      match ReadValue(b, data)
      case Ok(v) => ReadEntries(b, total, index + 6 + |name| + |data|, Put(acc, name, v))
      case Err(e) => Err(e)
  {
  }

  lemma PutThenAppend(acc: Dict, n: Bytes, v: Value)
    requires n !in Names(acc)
    ensures forall d :: Append(Put(acc, n, v), d) == Append(acc, Entry(n, v, d))
    ensures Names(Put(acc, n, v)) == Names(acc) + {n}
  {
    PutNames(acc, n, v);
    PutNew(acc, n, v);
    forall d ensures Append(Put(acc, n, v), d) == Append(acc, Entry(n, v, d)) {
      AppendAssociates(acc, Entry(n, v, Empty), d);
    }
  }

  lemma TotalsRead(b: Bytes, t: Bytes, k: Bytes, body: Bytes, slack: Bytes)
    requires |t| == 4 && |k| == 4 && b == MAGIC + t + k + body + slack
    ensures Totals(b) == Ok((FromLE(t), FromLE(k)))
    ensures At(b, 10, body) && Suffix(b, |slack|) == slack
  {
    hide FromLE;
    var head := MAGIC + t + k;
    assert b == head + (body + slack) && head[2..10] == t + k;
    assert b[2..10] == head[2..10];
    assert (t + k)[..4] == t && (t + k)[4..] == k;
    hide MAGIC;
    assert b[10..] == body + slack;
  }

  lemma HeaderRead(b: Bytes, body: Bytes, slack: Bytes)
    requires |body| + 10 < 0x1_0000_0000 && |slack| < 0x1_0000_0000
    requires b == MAGIC + LE(|body| + 10, 4) + LE(|slack|, 4) + body + slack
    ensures Totals(b) == Ok((|body| + 10, |slack|)) && |b| == 10 + |body| + |slack|
    ensures At(b, 10, body) && Suffix(b, |slack|) == slack
  {
    Widths();
    LERoundTrip(|body| + 10, 4);
    LERoundTrip(|slack|, 4);
    TotalsRead(b, LE(|body| + 10, 4), LE(|slack|, 4), body, slack);
  }

  /** The parts of a written dictionary. */
  lemma SerializedForm(d: Dict)
    requires Serialize(d).Some?
    ensures Body(d).Some? && SlackOf(d).Some?
    ensures var body, slack := Body(d).value, SlackOf(d).value;
      && |body| + 10 < 0x1_0000_0000 && |slack| < 0x1_0000_0000
      && Serialize(d).value == MAGIC + LE(|body| + 10, 4) + LE(|slack|, 4) + body + slack
  {
    hide Body, SlackOf, LE;
  }

  /** The first two bytes of every written dictionary. */
  lemma MagicWritten(d: Dict)
    requires Serialize(d).Some?
    ensures |Serialize(d).value| >= 10 && Serialize(d).value[..2] == [0x01, 0x50]
  {
    SerializedForm(d);
    hide Serialize, LE;
  }

  /** Reading a written dictionary in the reader's own form. */
  lemma {:induction false} CanonicalReread(d: Dict)
    requires Canonical(d) && Serialize(d).Some?
    ensures Unserialize(Serialize(d).value) == Reread(d)
    decreases d, 1
  {
    hide FromLE, Totals, Slice, ReadEntries;
    var body, slack := Body(d).value, SlackOf(d).value;
    var b := Serialize(d).value;
    HeaderRead(b, body, slack);
    if d.Entry? && d.name == SLACK {
      PlainHasNoSlack(d.rest);
      var head := Entry(SLACK, Leaf(slack), Empty);
      EntriesReread(b, |body| + 10, 10, head, d.rest);
      assert d == Entry(SLACK, Leaf(slack), d.rest) && slack != [];
      if Reread(d.rest).Ok? {
        assert Append(Empty, Reread(d.rest).value) == Reread(d.rest).value;
      }
    } else {
      PlainHasNoSlack(d);
      EntriesReread(b, |body| + 10, 10, Empty, d);
      assert Onto(Empty, Reread(d)) == Reread(d);
    }
  }

  lemma {:induction false} PlainHasNoSlack(d: Dict)
    requires Plain(d)
    ensures SLACK !in Names(d) && SlackOf(d) == Some([])
  {
    match d
    case Empty =>
    case Entry(_, _, rest) => PlainHasNoSlack(rest);
  }

  /** A dictionary in the reader's form comes back with its keys in the same order
      if and only if none of its bytes values starts with the two magic bytes. */
  lemma CanonicalRoundTripIff(d: Dict)
    requires Canonical(d) && Serialize(d).Some?
    ensures Unserialize(Serialize(d).value) == Ok(d) <==> Unambiguous(d)
  {
    CanonicalReread(d);
    RereadSameIff(d);
  }

  // ----- Any dictionary -----

  /** The reader's form of a dictionary: slack first, and only if there is some. */
  function Normal(d: Dict): Dict
    decreases d, 1
  {
    match SlackOf(d)
    case Some(slack) => if slack == [] then Kept(d) else Entry(SLACK, Leaf(slack), Kept(d))
    case None => Kept(d)
  }

  function Kept(d: Dict): Dict
    decreases d, 0
  {
    match d
    case Empty => Empty
    case Entry(n, v, rest) => if n == SLACK then Kept(rest) else Entry(n, NormalValue(v), Kept(rest))
  }

  function NormalValue(v: Value): Value
    decreases v, 0
  {
    match v
    case Leaf(_) => v
    case Node(d) => Node(Normal(d))
  }

  lemma {:induction false} NormalCanonical(d: Dict)
    requires Keyed(d)
    ensures Canonical(Normal(d))
    decreases d, 1
  {
    KeptPlain(d);
  }

  lemma {:induction false} KeptPlain(d: Dict)
    requires Keyed(d)
    ensures Plain(Kept(d)) && Names(Kept(d)) == Names(d) - {SLACK}
    decreases d, 0
  {
    match d
    case Empty =>
    case Entry(_, v, rest) =>
      KeptPlain(rest);
      if v.Node? {
        NormalCanonical(v.dict);
      }
  }

  /** Both forms are written the same way. */
  lemma {:induction false} NormalWritten(d: Dict)
    requires Keyed(d) && Serialize(d).Some?
    ensures Serialize(Normal(d)) == Serialize(d)
    decreases d, 1
  {
    KeptWritten(d);
    KeptPlain(d);
    PlainHasNoSlack(Kept(d));
    NormalParts(d);
    SameParts(Normal(d), d);
    hide *;
  }

  lemma NormalParts(d: Dict)
    requires SlackOf(d).Some? && SlackOf(Kept(d)) == Some([])
    ensures SlackOf(Normal(d)) == SlackOf(d) && Body(Normal(d)) == Body(Kept(d))
  {
    hide Kept;
  }

  lemma SameParts(d: Dict, e: Dict)
    requires Body(d) == Body(e) && SlackOf(d) == SlackOf(e)
    ensures Serialize(d) == Serialize(e)
  {
    hide Body, SlackOf, LE;
  }

  lemma {:induction false} KeptWritten(d: Dict)
    requires Keyed(d) && Body(d).Some?
    ensures Body(Kept(d)) == Body(d)
    decreases d, 0
  {
    hide LE;
    match d
    case Empty =>
    case Entry(_, v, rest) =>
      KeptWritten(rest);
      if d.name != SLACK && v.Node? {
        NormalWritten(v.dict);
      }
  }

  /** Reading a written dictionary, exactly. */
  lemma SerializedReread(d: Dict)
    requires Keyed(d) && Serialize(d).Some?
    ensures Unserialize(Serialize(d).value) == Reread(Normal(d))
  {
    NormalWritten(d);
    NormalCanonical(d);
    CanonicalReread(Normal(d));
    hide *;
  }

  /** No slack, at any level, is present but empty. */
  predicate Full(d: Dict)
    decreases d, 1
  {
    (SLACK in Names(d) ==> SlackOf(d) != Some([])) && FullWithin(d)
  }

  predicate FullWithin(d: Dict)
    decreases d, 0
  {
    match d
    case Empty => true
    case Entry(n, v, rest) => (n != SLACK && v.Node? ==> Full(v.dict)) && FullWithin(rest)
  }

  /** Whether a reading is, up to order, the dictionary. */
  predicate Same(r: Result<Dict>, m: map<Bytes, Plainly>) {
    r.Ok? && AsMap(r.value) == m
  }

  lemma {:induction false} RereadNames(d: Dict)
    requires Reread(d).Ok?
    ensures Names(Reread(d).value) == Names(d)
  {
    match d
    case Empty =>
    case Entry(n, _, rest) => RereadNames(rest);
  }

  lemma UpdatesEqual(m: map<Bytes, Plainly>, m': map<Bytes, Plainly>, n: Bytes, v: Plainly, v': Plainly)
    requires n !in m && n !in m'
    ensures m[n := v] == m'[n := v'] <==> v == v' && m == m'
  {
    if m[n := v] == m'[n := v'] {
      assert m[n := v][n] == m'[n := v'][n];
      assert m == m[n := v] - {n} && m' == m'[n := v'] - {n};
    }
  }

  lemma {:induction false} SlackIn(d: Dict)
    requires Keyed(d) && SlackOf(d).Some?
    ensures SLACK in Names(d) ==> SLACK in AsMap(d) && AsMap(d)[SLACK] == Raw(SlackOf(d).value)
    ensures SLACK !in Names(d) ==> SlackOf(d) == Some([])
  {
    AsMapKeys(d);
    match d
    case Empty =>
    case Entry(n, _, rest) =>
      if n != SLACK {
        SlackIn(rest);
        AsMapKeys(rest);
      }
  }

  lemma RereadOfNormal(d: Dict)
    requires SlackOf(d).Some?
    ensures var slack, r := SlackOf(d).value, Reread(Kept(d));
      Reread(Normal(d)) ==
        if slack == [] then r else match r case Ok(e) => Ok(Entry(SLACK, Leaf(slack), e)) case Err(e) => Err(e)
  {
    hide SlackOf, Kept;
  }

  /** The slack put back in front matters to neither side. */
  lemma SlackPutBack(e: Dict, m: map<Bytes, Plainly>, slack: Bytes)
    requires SLACK !in AsMap(e) && SLACK in m && m[SLACK] == Raw(slack)
    ensures AsMap(Entry(SLACK, Leaf(slack), e)) == m <==> AsMap(e) == m - {SLACK}
  {
    UpdatesEqual(AsMap(e), m - {SLACK}, SLACK, Raw(slack), Raw(slack));
    assert m == (m - {SLACK})[SLACK := Raw(slack)];
  }

  lemma {:induction false} NormalReread(d: Dict)
    requires Keyed(d) && Serialize(d).Some?
    ensures Same(Reread(Normal(d)), AsMap(d)) <==> Unambiguous(d) && Full(d)
    decreases d, 1
  {
    KeptReread(d);
    SlackIn(d);
    AsMapKeys(d);
    KeptPlain(d);
    RereadOfNormal(d);
    var slack := SlackOf(d).value;
    var r := Reread(Kept(d));
    hide Serialize, Kept, Unambiguous, FullWithin, Keyed, Plain, SlackOf, Normal, Reread, AsMap, Names;
    if r.Ok? {
      RereadNames(Kept(d));
      AsMapKeys(r.value);
      if slack != [] {
        SlackPutBack(r.value, AsMap(d), slack);
      } else if SLACK !in Names(d) {
        assert AsMap(d) - {SLACK} == AsMap(d);
      }
    }
  }

  lemma {:induction false} KeptReread(d: Dict)
    requires Keyed(d) && Body(d).Some?
    ensures Same(Reread(Kept(d)), AsMap(d) - {SLACK}) <==> Unambiguous(d) && FullWithin(d)
    decreases d, 0
  {
    match d
    case Empty =>
    case Entry(n, v, rest) =>
      KeptReread(rest);
      AsMapKeys(rest);
      KeptPlain(rest);
      hide Keyed, Plain, Body;
      if n == SLACK {
        assert AsMap(d) - {SLACK} == AsMap(rest) - {SLACK};
      } else {
        ValueRereadSame(v);
        var rv, r := RereadValue(NormalValue(v)), Reread(Kept(rest));
        if rv.Ok? && r.Ok? {
          RereadNames(Kept(rest));
          AsMapKeys(r.value);
          UpdatesEqual(AsMap(r.value), AsMap(rest) - {SLACK}, n, AsValue(rv.value), AsValue(v));
          assert AsMap(d) - {SLACK} == (AsMap(rest) - {SLACK})[n := AsValue(v)];
        }
      }
  }

  lemma {:induction false} ValueRereadSame(v: Value)
    requires (v.Node? ==> Keyed(v.dict)) && ValueBytes(v).Some?
    ensures var r := RereadValue(NormalValue(v));
      (r.Ok? && AsValue(r.value) == AsValue(v)) <==>
      match v case Leaf(data) => !([0x01, 0x50] <= data) case Node(d) => Unambiguous(d) && Full(d)
    decreases v, 0
  {
    if v.Node? {
      NormalReread(v.dict);
    }
  }

  /** A written dictionary is read back equal, at every depth, if and only if none of
      its bytes values starts with the two magic bytes and no slack is empty. */
  lemma BlobRoundTripIff(d: Dict)
    requires Keyed(d) && Serialize(d).Some?
    ensures Same(Unserialize(Serialize(d).value), AsMap(d)) <==> Unambiguous(d) && Full(d)
  {
    SerializedReread(d);
    NormalReread(d);
    hide *;
  }

  /** A blob cut short anywhere is refused. */
  lemma CutBlobRefused(d: Dict, n: nat)
    requires Serialize(d).Some? && n < |Serialize(d).value|
    ensures Unserialize(Serialize(d).value[..n]).Err?
  {
    SerializedForm(d);
    var b := Serialize(d).value;
    HeaderRead(b, Body(d).value, SlackOf(d).value);
    if n >= 10 {
      TotalsOfPrefix(b, n);
    }
    hide Serialize, Body, SlackOf, ReadEntries, Suffix;
    assert Totals(b[..n]).Ok? ==> n >= 10;
    hide Totals;
  }

  lemma TotalsOfPrefix(b: Bytes, n: nat)
    requires 10 <= n <= |b|
    ensures Totals(b[..n]) == Totals(b)
  {
    hide FromLE;
    assert b[..n][2..10] == b[2..10] by {
      forall k | 2 <= k < 10 ensures b[..n][k] == b[k] {
      }
    }
    assert Slice(b[..n], 2, 10) == b[..n][2..10] && Slice(b, 2, 10) == b[2..10];
  }

  // ----- What can be written -----

  /** The bytes a dictionary takes: ten, six and the name and value for each entry,
      and the slack. */
  function Size(d: Dict): nat
    decreases d, 1
  {
    10 + EntriesSize(d) + match SlackOf(d) case Some(slack) => |slack| case None => 0
  }

  function EntriesSize(d: Dict): nat
    decreases d, 0
  {
    match d
    case Empty => 0
    case Entry(n, v, rest) => (if n == SLACK then 0 else 6 + |n| + ValueSize(v)) + EntriesSize(rest)
  }

  function ValueSize(v: Value): nat
    decreases v, 0
  {
    match v
    case Leaf(data) => |data|
    case Node(d) => Size(d)
  }

  /** Names of fewer than 2^16 bytes, values of fewer than 2^32, at every depth; and
      slack that is bytes. */
  predicate Fits(d: Dict)
    decreases d, 1
  {
    && FitsWithin(d) && SlackOf(d).Some?
    && EntriesSize(d) + 10 < 0x1_0000_0000 && |SlackOf(d).value| < 0x1_0000_0000
  }

  predicate FitsWithin(d: Dict)
    decreases d, 0
  {
    match d
    case Empty => true
    case Entry(n, v, rest) =>
      FitsWithin(rest) &&
      (n != SLACK ==> |n| < 0x1_0000 && ValueSize(v) < 0x1_0000_0000 && (v.Node? ==> Fits(v.dict)))
  }

  /** A dictionary can be written if and only if it fits, and takes that many bytes. */
  lemma {:induction false} WritableIff(d: Dict)
    ensures Serialize(d).Some? <==> Fits(d)
    ensures Serialize(d).Some? ==> |Serialize(d).value| == Size(d)
    decreases d, 1
  {
    BodyWritableIff(d);
    hide Body, EntriesSize, FitsWithin, SlackOf, LE;
  }

  lemma {:induction false} BodyWritableIff(d: Dict)
    ensures Body(d).Some? <==> FitsWithin(d)
    ensures Body(d).Some? ==> |Body(d).value| == EntriesSize(d)
    decreases d, 0
  {
    hide LE;
    match d
    case Empty =>
    case Entry(_, v, rest) =>
      BodyWritableIff(rest);
      if v.Node? {
        WritableIff(v.dict);
      }
      hide Serialize, Fits, Size;
  }

  // ----- The other writer -----

  /** `fast_blob_serialize`: a nested dictionary becomes its entries alone. */
  function FastSerialize(d: Dict): Option<Bytes> {
    match (FastBody(d), SlackOf(d))
    case (Some(body), Some(slack)) =>
      if |body| + 10 < 0x1_0000_0000 && |slack| < 0x1_0000_0000 then
        Some(MAGIC + LE(|body| + 10, 4) + LE(|slack|, 4) + body + slack)
      else None
    case _ => None
  }

  function FastBody(d: Dict): Option<Bytes> {
    match d
    case Empty => Some([])
    case Entry(n, v, rest) =>
      if n == SLACK then FastBody(rest) else
      match (FastValue(v), FastBody(rest))
      case (Some(data), Some(tail)) =>
        if |n| < 0x1_0000 && |data| < 0x1_0000_0000 then
          Some(LE(|n|, 2) + LE(|data|, 4) + n + data + tail)
        else None
      case _ => None
  }

  function FastValue(v: Value): Option<Bytes> {
    match v
    case Leaf(data) => Some(data)
    case Node(d) => FastBody(d)
  }

  /** The same measures without the headers of nested dictionaries. */
  function FastSize(d: Dict): nat {
    match d
    case Empty => 0
    case Entry(n, v, rest) =>
      (if n == SLACK then 0 else 6 + |n| + match v case Leaf(data) => |data| case Node(d') => FastSize(d'))
      + FastSize(rest)
  }

  predicate FastFits(d: Dict) {
    match d
    case Empty => true
    case Entry(n, v, rest) =>
      FastFits(rest) &&
      (n != SLACK ==>
         && |n| < 0x1_0000
         && match v
            case Leaf(data) => |data| < 0x1_0000_0000
            case Node(d') => FastSize(d') < 0x1_0000_0000 && FastFits(d'))
  }

  lemma {:induction false} FastBodyIff(d: Dict)
    ensures FastBody(d).Some? <==> FastFits(d)
    ensures FastBody(d).Some? ==> |FastBody(d).value| == FastSize(d)
  {
    hide LE;
    match d
    case Empty =>
    case Entry(_, v, rest) =>
      FastBodyIff(rest);
      if v.Node? {
        FastBodyIff(v.dict);
      }
  }

  lemma FastWritableIff(d: Dict)
    ensures FastSerialize(d).Some? <==>
      && FastFits(d) && FastSize(d) + 10 < 0x1_0000_0000
      && SlackOf(d).Some? && |SlackOf(d).value| < 0x1_0000_0000
    ensures FastSerialize(d).Some? ==>
      |FastSerialize(d).value| == 10 + FastSize(d) + |SlackOf(d).value|
      && FastSerialize(d).value[..2] == [0x01, 0x50]
  {
    FastBodyIff(d);
    hide FastBody, FastFits, FastSize, SlackOf, LE;
  }

  /** Some value, other than the slack, is a dictionary. */
  predicate Nests(d: Dict) {
    match d
    case Empty => false
    case Entry(n, v, rest) => (n != SLACK && v.Node?) || Nests(rest)
  }

  lemma {:induction false} FastBodyShorter(d: Dict)
    requires Body(d).Some?
    ensures FastBody(d).Some? && |FastBody(d).value| <= |Body(d).value|
    ensures Nests(d) ==> |FastBody(d).value| < |Body(d).value|
    ensures !Nests(d) ==> FastBody(d) == Body(d)
  {
    hide LE;
    match d
    case Empty =>
    case Entry(n, v, rest) =>
      FastBodyShorter(rest);
      if n != SLACK && v.Node? {
        SerializedForm(v.dict);
        FastBodyShorter(v.dict);
        hide Serialize;
      }
  }

  /** The two writers write the same if and only if no value is a dictionary:
      otherwise the fast one leaves out the header of each, and is shorter. */
  lemma FastAgreesIff(d: Dict)
    requires Serialize(d).Some?
    ensures FastSerialize(d).Some?
    ensures FastSerialize(d) == Serialize(d) <==> !Nests(d)
  {
    SerializedForm(d);
    FastBodyShorter(d);
    hide Serialize, Body, FastBody, SlackOf, Nests;
    var b := MAGIC + LE(|Body(d).value| + 10, 4) + LE(|SlackOf(d).value|, 4) + Body(d).value + SlackOf(d).value;
    assert |b| == 10 + |Body(d).value| + |SlackOf(d).value|;
    assert |FastSerialize(d).value| == 10 + |FastBody(d).value| + |SlackOf(d).value|;
  }
}
