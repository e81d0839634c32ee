/** The administration server's own blob reader.  It compares a byte with a
    one-character string to detect nested blobs; the two are never equal, so every
    value stays bytes. */
module AdminBlob {
  import opened Results
  import opened Bytes
  import opened Blobs

  /** The slack is stored under a text key, which no entry can have. */
  datatype FlatBlob = FlatBlob(slack: Option<Bytes>, entries: Dict)

  /** The loop of `blob_unserialize`, from `index` on. */
  function FlatEntries(b: Bytes, total: nat, index: nat, acc: Dict): Result<Dict>
    decreases total - index
  {
    if index >= total then Ok(acc)
    else
      var (nameSize, dataSize) :- Sizes(b, index);
      var dataStart := index + 6 + nameSize;
      var dataEnd := dataStart + dataSize;
      FlatEntries(b, total, dataEnd, Put(acc, Slice(b, index + 6, dataStart), Leaf(Slice(b, dataStart, dataEnd))))
  }

  function Flat(b: Bytes): Result<FlatBlob> {
    var (total, slack) :- Totals(b);
    if total + slack != |b| then Err(NameError) else
    var entries :- FlatEntries(b, total, 10, Empty);
    Ok(FlatBlob(if slack > 0 then Some(Suffix(b, slack)) else None, entries))
  }

  /** `blob_unserialize`: it ends on every input, since each turn advances by at
      least the six bytes of a header. */
  method BlobUnserialize(blobtext: Bytes) returns (r: Result<FlatBlob>)
    ensures r == Flat(blobtext)
  {
    hide Totals, Sizes, Slice, Suffix, Put;
    var totals := Totals(blobtext);
    if totals.Err? {
      return Err(totals.error);
    }
    var (totalsize, slack) := totals.value;
    var slackBytes: Option<Bytes> := None;
    if slack != 0 {
      slackBytes := Some(Suffix(blobtext, slack));
    }
    if totalsize + slack != |blobtext| {
      return Err(NameError);
    }
    var blobdict := Empty;
    var index := 10;
    ghost var result := FlatEntries(blobtext, totalsize, index, blobdict);
    while index < totalsize
      invariant FlatEntries(blobtext, totalsize, index, blobdict) == result
    {
      var sizes := Sizes(blobtext, index);
      if sizes.Err? {
        return Err(sizes.error);
      }
      var (namesize, datasize) := sizes.value;
      var namestart := index + 6;
      var datastart := namestart + namesize;
      var dataend := datastart + datasize;
      blobdict := Put(blobdict, Slice(blobtext, namestart, datastart), Leaf(Slice(blobtext, datastart, dataend)));
      index := index + 6 + namesize + datasize;
    }
    return Ok(FlatBlob(slackBytes, blobdict));
  }

  // ----- Against the writer -----

  /** The entries without the slack, every nested dictionary left serialised. */
  function Flattened(d: Dict): Dict {
    match d
    case Empty => Empty
    case Entry(n, v, rest) =>
      if n == SLACK then Flattened(rest) else
      match ValueBytes(v)
      case Some(data) => Entry(n, Leaf(data), Flattened(rest))
      case None => Flattened(rest)
  }

  lemma OneFlatEntry(b: Bytes, total: nat, index: nat, acc: Dict, name: Bytes, data: Bytes)
    requires index < total && Sizes(b, index) == Ok((|name|, |data|))
    requires At(b, index + 6, name) && At(b, index + 6 + |name|, data)
    ensures FlatEntries(b, total, index, acc) ==
      FlatEntries(b, total, index + 6 + |name| + |data|, Put(acc, name, Leaf(data)))
  {
  }

  lemma {:induction false} FlatEntriesRead(b: Bytes, total: nat, index: nat, acc: Dict, d: Dict)
    requires 10 <= index && Distinct(d) && Names(acc) !! Names(d)
    requires Body(d).Some? && At(b, index, Body(d).value) && total == index + |Body(d).value|
    ensures FlatEntries(b, total, index, acc) == Ok(Append(acc, Flattened(d)))
    decreases d
  {
    hide FromLE, Sizes, Slice, Totals, SlackOf;
    match d
    case Empty => AppendEmpty(acc);
    case Entry(n, v, rest) =>
      if n == SLACK {
        FlatEntriesRead(b, total, index, acc, rest);
      } else {
        EntryFields(b, index, n, v, rest);
        var data := ValueBytes(v).value;
        OneFlatEntry(b, total, index, acc, n, data);
        PutThenAppend(acc, n, Leaf(data));
        FlatEntriesRead(b, total, index + 6 + |n| + |data|, Put(acc, n, Leaf(data)), rest);
      }
  }

  lemma FlatReads(b: Bytes, body: Bytes, slack: Bytes, d: Dict)
    requires Distinct(d) && Body(d) == Some(body)
    requires Totals(b) == Ok((|body| + 10, |slack|)) && |b| == 10 + |body| + |slack|
    requires At(b, 10, body) && Suffix(b, |slack|) == slack
    ensures Flat(b) == Ok(FlatBlob(if slack == [] then None else Some(slack), Flattened(d)))
  {
    FlatEntriesRead(b, |body| + 10, 10, Empty, d);
    assert Append(Empty, Flattened(d)) == Flattened(d);
    hide Totals, FlatEntries, Suffix, Flattened, Body, Distinct, Append;
  }

  /** For every dictionary that can be written, whatever is nested in it, the reader
      returns exactly its slack and its other entries in order, whatever bytes the
      values start with. */
  lemma FlatReadsWritten(d: Dict)
    requires Distinct(d) && Serialize(d).Some?
    ensures SlackOf(d).Some?
    ensures var slack := SlackOf(d).value;
      Flat(Serialize(d).value) == Ok(FlatBlob(if slack == [] then None else Some(slack), Flattened(d)))
  {
    hide *;
    SerializedForm(d);
    HeaderRead(Serialize(d).value, Body(d).value, SlackOf(d).value);
    FlatReads(Serialize(d).value, Body(d).value, SlackOf(d).value, d);
  }

  /** What the size test is for: a written blob that is cut short, or that anything
      follows, is refused. */
  lemma WrongLengthRefused(d: Dict, b: Bytes)
    requires Serialize(d).Some? && |b| >= 10 && b[..10] == Serialize(d).value[..10]
    requires |b| != |Serialize(d).value|
    ensures Flat(b) == Err(NameError)
  {
    SerializedForm(d);
    var w := Serialize(d).value;
    HeaderRead(w, Body(d).value, SlackOf(d).value);
    hide Serialize, Body, SlackOf, FlatEntries, Suffix, FromLE;
    assert Slice(b, 2, 10) == b[..10][2..] && Slice(w, 2, 10) == w[..10][2..];
  }
}
