/** The file half of the blob index.  Rows are collected in file-name order, dates
    are sorted separately, and row i is then given the match for date i: the two
    lists must describe the same files. */
module BlobRows {
  import opened Results
  import opened Bytes
  import opened Ordering
  import opened BlobIndex

  /** What a file name turns out to be; the timestamps are local-time ones. */
  datatype Kind = SecondBlob(stamp: Time) | FirstBlob(stamp: Time) | Skipped

  predicate ByName(a: Name, b: Name) {
    Compare(a, b) < 0
  }

  function Seconds(files: seq<Name>, kind: Name -> Kind): seq<Dated> {
    if files == [] then [] else
      var init, f := files[..|files| - 1], files[|files| - 1];
      Seconds(init, kind) + if kind(f).SecondBlob? then [Dated(kind(f).stamp, f)] else []
  }

  function Firsts(files: seq<Name>, kind: Name -> Kind): seq<Dated> {
    if files == [] then [] else
      var init, f := files[..|files| - 1], files[|files| - 1];
      Firsts(init, kind) + if kind(f).FirstBlob? then [Dated(kind(f).stamp, f)] else []
  }

  function NameOf(found: Option<Dated>): Option<Name> {
    match found
    case Some(d) => Some(d.name)
    case None => None
  }

  function TargetAt(firsts: seq<Dated>, x: Time): Option<Name> {
    NameOf(SearchMatch(Sort(ByStampAndName, firsts), x))
  }

  /** The rows, by their names in order and the dates sorted separately. */
  ghost predicate Cached(entries: seq<Name>, kind: Name -> Kind, rows: seq<(Name, Option<Name>)>) {
    var files := Sort(ByName, entries);
    var seconds := Seconds(files, kind);
    && |rows| == |seconds| == |Sort(ByStampAndName, seconds)|
    && forall i :: 0 <= i < |rows| ==>
         rows[i] == (seconds[i].name, TargetAt(Firsts(files, kind), Sort(ByStampAndName, seconds)[i].stamp))
  }

  /** `_cache_file_based_blobs`: one row per secondblob, with the firstblob matched
      to it, if any. */
  method CacheFileBlobs(entries: seq<Name>, kind: Name -> Kind) returns (rows: seq<(Name, Option<Name>)>)
    ensures Cached(entries, kind, rows)
  {
    hide SearchMatch, Sort, Compare;
    var blobFiles := Sort(ByName, entries);
    var firstBlobDates: seq<Dated>, secondBlobDates: seq<Dated> := [], [];
    var blobRows: seq<Name> := [];
    for k := 0 to |blobFiles|
      invariant secondBlobDates == Seconds(blobFiles[..k], kind)
      invariant firstBlobDates == Firsts(blobFiles[..k], kind)
      invariant |blobRows| == |secondBlobDates|
      invariant forall i :: 0 <= i < |blobRows| ==> blobRows[i] == secondBlobDates[i].name
    {
      var filename := blobFiles[k];
      assert blobFiles[..k + 1][..k] == blobFiles[..k];
      match kind(filename) {
        case SecondBlob(stamp) =>
          secondBlobDates := secondBlobDates + [Dated(stamp, filename)];
          blobRows := blobRows + [filename];
        case FirstBlob(stamp) =>
          firstBlobDates := firstBlobDates + [Dated(stamp, filename)];
        case Skipped =>
      }
    }
    assert blobFiles[..|blobFiles|] == blobFiles;
    SortElements(ByStampAndName, secondBlobDates);
    SameLength(Sort(ByStampAndName, secondBlobDates), secondBlobDates);
    firstBlobDates := Sort(ByStampAndName, firstBlobDates);
    secondBlobDates := Sort(ByStampAndName, secondBlobDates);
    rows := MatchRows(blobRows, secondBlobDates, firstBlobDates);
  }

  /** Its last loop, over rows and dates by index. */
  method MatchRows(blobRows: seq<Name>, dates: seq<Dated>, firsts: seq<Dated>)
    returns (rows: seq<(Name, Option<Name>)>)
    requires |blobRows| == |dates|
    ensures |rows| == |blobRows|
    ensures forall i :: 0 <= i < |rows| ==> rows[i] == (blobRows[i], NameOf(SearchMatch(firsts, dates[i].stamp)))
  {
    hide SearchMatch;
    rows := [];
    for i := 0 to |blobRows|
      invariant |rows| == i
      invariant forall j :: 0 <= j < i ==> rows[j] == (blobRows[j], NameOf(SearchMatch(firsts, dates[j].stamp)))
    {
      var found := SearchMatch(firsts, dates[i].stamp);
      rows := rows + [(blobRows[i], if found.Some? then Some(found.value.name) else None)];
    }
  }

  lemma SameLength<T>(a: seq<T>, b: seq<T>)
    requires multiset(a) == multiset(b)
    ensures |a| == |b|
  {
    assert |multiset(a)| == |a| && |multiset(b)| == |b|;
  }

  // ----- When the two lists are aligned -----

  lemma ByStampAndNameIsOrder()
    ensures StrictOrder(ByStampAndName)
  {
    forall a, b ensures Compare(a, b) == -Compare(b, a) {
      CompareFlips(a, b);
    }
    forall a: Dated, b: Dated, c: Dated | !ByStampAndName(b, a) && !ByStampAndName(c, b)
      ensures !ByStampAndName(c, a)
    {
      if a.stamp == b.stamp == c.stamp {
        CompareTransitive(a.name, b.name, c.name);
      }
    }
  }

  lemma ByNameIsOrder()
    ensures StrictOrder(ByName)
  {
    forall a, b ensures Compare(a, b) == -Compare(b, a) {
      CompareFlips(a, b);
    }
    forall a, b, c | !ByName(b, a) && !ByName(c, b) ensures !ByName(c, a) {
      CompareTransitive(a, b, c);
    }
  }

  ghost predicate NamesAscend(s: seq<Dated>) {
    forall i, j :: 0 <= i < j < |s| ==> Compare(s[i].name, s[j].name) < 0
  }

  ghost predicate Aligned(s: seq<Dated>) {
    |Sort(ByStampAndName, s)| == |s| &&
    forall i :: 0 <= i < |s| ==> Sort(ByStampAndName, s)[i].name == s[i].name
  }

  /** Row i and date i belong to the same file, for every row, if and only if the
      timestamps never decrease along the names. */
  lemma AlignedIff(s: seq<Dated>)
    requires NamesAscend(s)
    ensures Aligned(s) <==> Sorted(ByStamp, s)
    ensures Aligned(s) <==> Sort(ByStampAndName, s) == s
  {
    var r := Sort(ByStampAndName, s);
    SortElements(ByStampAndName, s);
    SameLength(r, s);
    ByStampAndNameIsOrder();
    SortSorted(ByStampAndName, s);
    if Sorted(ByStamp, s) {
      forall i, j | 0 <= i < j < |s| ensures !ByStampAndName(s[j], s[i]) {
        CompareFlips(s[i].name, s[j].name);
      }
      SortFixed(ByStampAndName, s);
    }
    if Aligned(s) {
      forall i | 0 <= i < |s| ensures r[i] == s[i] {
        assert r[i] in r;
        var k :| 0 <= k < |s| && s[k] == r[i];
        CompareZero(s[i].name, s[i].name);
        assert k == i;
      }
      assert r == s;
      forall i, j | 0 <= i < j < |s| ensures !ByStamp(s[j], s[i]) {
        assert !ByStampAndName(s[j], s[i]);
      }
    }
  }

  /** The files of each kind, all of them, with their timestamps. */
  lemma {:induction false} SecondsHold(files: seq<Name>, kind: Name -> Kind)
    ensures forall d :: d in Seconds(files, kind) <==> d.name in files && kind(d.name) == SecondBlob(d.stamp)
  {
    if files != [] {
      var n := |files| - 1;
      SecondsHold(files[..n], kind);
      assert files == files[..n] + [files[n]];
    }
  }

  lemma {:induction false} FirstsHold(files: seq<Name>, kind: Name -> Kind)
    ensures forall d :: d in Firsts(files, kind) <==> d.name in files && kind(d.name) == FirstBlob(d.stamp)
  {
    if files != [] {
      var n := |files| - 1;
      FirstsHold(files[..n], kind);
      assert files == files[..n] + [files[n]];
    }
  }

  /** The firstblob a row should show for a date: one of the directory not after the
      date, with none of the directory's newer in between; or there is none. */
  ghost predicate InForceAt(entries: seq<Name>, kind: Name -> Kind, x: Time, target: Option<Name>) {
    match target
    case Some(f) =>
      && f in entries && kind(f).FirstBlob? && kind(f).stamp <= x
      && forall g :: g in entries && kind(g).FirstBlob? && kind(g).stamp <= x ==> kind(g).stamp <= kind(f).stamp
    case None => forall g :: g in entries && kind(g).FirstBlob? ==> kind(g).stamp > x
  }

  lemma TargetInForce(entries: seq<Name>, kind: Name -> Kind, x: Time)
    ensures InForceAt(entries, kind, x, TargetAt(Firsts(Sort(ByName, entries), kind), x))
  {
    var firsts := Firsts(Sort(ByName, entries), kind);
    ByNameIsOrder();
    SortSorted(ByName, entries);
    FirstsHold(Sort(ByName, entries), kind);
    TargetIsNewest(firsts, x);
    hide Firsts, Sort, SearchMatch;
    forall g | g in entries && kind(g).FirstBlob? ensures Dated(kind(g).stamp, g) in firsts {
    }
  }

  /** A row is there for every secondblob of the directory and for nothing else, in the
      order of the names, with the firstblob in force at the date of the same index. */
  lemma RowsShown(entries: seq<Name>, kind: Name -> Kind, rows: seq<(Name, Option<Name>)>)
    requires Cached(entries, kind, rows)
    ensures forall f :: f in entries && kind(f).SecondBlob? <==> exists i :: 0 <= i < |rows| && rows[i].0 == f
    ensures |Sort(ByStampAndName, Seconds(Sort(ByName, entries), kind))| == |rows|
    ensures forall i :: 0 <= i < |rows| ==>
      InForceAt(entries, kind, Sort(ByStampAndName, Seconds(Sort(ByName, entries), kind))[i].stamp, rows[i].1)
  {
    var seconds := Seconds(Sort(ByName, entries), kind);
    ByNameIsOrder();
    SortSorted(ByName, entries);
    SecondsHold(Sort(ByName, entries), kind);
    hide Firsts, Seconds, Sort, TargetAt;
    forall f | f in entries && kind(f).SecondBlob? ensures exists i :: 0 <= i < |rows| && rows[i].0 == f {
      assert Dated(kind(f).stamp, f) in seconds;
      var i :| 0 <= i < |seconds| && seconds[i] == Dated(kind(f).stamp, f);
      assert rows[i].0 == f;
    }
    forall i | 0 <= i < |rows| ensures rows[i].0 in entries && kind(rows[i].0).SecondBlob? {
      assert seconds[i] in seconds;
    }
    forall i | 0 <= i < |rows| ensures InForceAt(entries, kind, Sort(ByStampAndName, seconds)[i].stamp, rows[i].1) {
      TargetInForce(entries, kind, Sort(ByStampAndName, seconds)[i].stamp);
    }
  }

  lemma {:induction false} SecondsFollowNames(files: seq<Name>, kind: Name -> Kind)
    requires Ascend(files)
    ensures NamesAscend(Seconds(files, kind))
  {
    SecondsHold(files, kind);
    if files != [] {
      SecondsHold(files[..|files| - 1], kind);
      SecondsFollowNames(files[..|files| - 1], kind);
      var init, f := Seconds(files[..|files| - 1], kind), files[|files| - 1];
      forall i | 0 <= i < |init| ensures Compare(init[i].name, f) < 0 {
        assert init[i] in init;
      }
    }
  }

  /** The firstblob a date is given: the newest one not after it, if there is any. */
  lemma TargetIsNewest(firsts: seq<Dated>, x: Time)
    ensures match SearchMatch(Sort(ByStampAndName, firsts), x)
      case Some(d) => d in firsts && d.stamp <= x && forall e :: e in firsts && e.stamp <= x ==> e.stamp <= d.stamp
      case None => forall e :: e in firsts ==> e.stamp > x
  {
    var s := Sort(ByStampAndName, firsts);
    ByStampAndNameIsOrder();
    SortSorted(ByStampAndName, firsts);
    forall i, j | 0 <= i < j < |s| ensures !ByStamp(s[j], s[i]) {
      assert !ByStampAndName(s[j], s[i]);
    }
    SearchIsLast(s, x);
    LastUpToBest(s, x);
  }

  // ----- Names with zero-padded dates -----

  datatype Moment = Moment(year: nat, month: nat, day: nat, hour: nat, minute: nat, second: nat)

  predicate FourDigitYear(m: Moment) {
    m.year < 10000 && m.month < 100 && m.day < 100 && m.hour < 100 && m.minute < 100 && m.second < 100
  }

  /** The order of dates: year, month, day, hour, minute, second. */
  function Calendar(a: Moment, b: Moment): int {
    if a.year != b.year then Cmp(a.year, b.year)
    else if a.month != b.month then Cmp(a.month, b.month)
    else if a.day != b.day then Cmp(a.day, b.day)
    else if a.hour != b.hour then Cmp(a.hour, b.hour)
    else if a.minute != b.minute then Cmp(a.minute, b.minute)
    else Cmp(a.second, b.second)
  }

  function Decimal(n: nat, w: nat): (r: seq<int>)
    ensures |r| == w && Digits(10, r)
  {
    if w == 0 then [] else Decimal(n / 10, w - 1) + [n % 10]
  }

  lemma {:induction false} DecimalValue(n: nat, w: nat)
    requires n < Pow(10, w)
    ensures Value(10, Decimal(n, w)) == n
  {
    if w > 0 {
      DecimalValue(n / 10, w - 1);
      var r := Decimal(n, w);
      assert r[..|r| - 1] == Decimal(n / 10, w - 1);
    }
  }

  /** Digits as text: code point 48 is the digit zero. */
  function Shown(digits: seq<int>): (r: seq<int>)
    ensures |r| == |digits|
  {
    if digits == [] then [] else [digits[0] + 48] + Shown(digits[1..])
  }

  /** Each digit as the character that shows it. */
  lemma {:induction false} ShownDigits(digits: seq<int>, i: nat)
    requires i < |digits|
    ensures Shown(digits)[i] == '0' as int + digits[i]
  {
    if i > 0 {
      ShownDigits(digits[1..], i - 1);
    }
  }

  lemma {:induction false} ShownOrder(a: seq<int>, b: seq<int>)
    ensures Compare(Shown(a), Shown(b)) == Compare(a, b)
  {
    if a != [] && b != [] {
      ShownOrder(a[1..], b[1..]);
      assert Shown(a)[1..] == Shown(a[1..]) && Shown(b)[1..] == Shown(b[1..]);
    }
  }

  function Number(n: nat, w: nat): seq<int> {
    Shown(Decimal(n, w))
  }

  lemma NumberThen(n: nat, m: nat, w: nat, x: seq<int>, y: seq<int>)
    requires n < Pow(10, w) && m < Pow(10, w)
    ensures Compare(Number(n, w) + x, Number(m, w) + y) == if n != m then Cmp(n, m) else Compare(x, y)
  {
    CompareParts(Number(n, w), x, Number(m, w), y);
    ShownOrder(Decimal(n, w), Decimal(m, w));
    CompareIsNumeric(10, Decimal(n, w), Decimal(m, w));
    DecimalValue(n, w);
    DecimalValue(m, w);
  }

  const DASH: seq<int> := [45]
  const SPACE: seq<int> := [32]
  const UNDERSCORE: seq<int> := [95]

  /** The time part `HH_MM_SS` and what follows it. */
  function ClockText(m: Moment, suffix: seq<int>): seq<int> {
    Number(m.hour, 2) + (UNDERSCORE + (Number(m.minute, 2) + (UNDERSCORE + (Number(m.second, 2) + suffix))))
  }

  /** `YYYY-MM-DD HH_MM_SS`, a description, in a file name after its prefix. */
  function BlobName(prefix: seq<int>, m: Moment, suffix: seq<int>): Name {
    var day := Number(m.day, 2) + (SPACE + ClockText(m, suffix));
    prefix + (Number(m.year, 4) + (DASH + (Number(m.month, 2) + (DASH + day))))
  }

  lemma TwoDigits(n: nat, m: nat, sep: seq<int>, x: seq<int>, y: seq<int>)
    requires n < 100 && m < 100
    ensures Compare(Number(n, 2) + (sep + x), Number(m, 2) + (sep + y)) == if n != m then Cmp(n, m) else Compare(x, y)
  {
    assert Pow(10, 1) == 10 && Pow(10, 2) == 100;
    NumberThen(n, m, 2, sep + x, sep + y);
    ComparePrefix(sep, x, y);
  }

  lemma ClockOrder(a: Moment, b: Moment, x: seq<int>, y: seq<int>)
    requires FourDigitYear(a) && FourDigitYear(b)
    ensures Compare(ClockText(a, x), ClockText(b, y)) ==
      if a.hour != b.hour then Cmp(a.hour, b.hour)
      else if a.minute != b.minute then Cmp(a.minute, b.minute)
      else if a.second != b.second then Cmp(a.second, b.second)
      else Compare(x, y)
  {
    hide Number, Compare;
    var sa, sb := Number(a.second, 2) + x, Number(b.second, 2) + y;
    TwoDigits(a.second, b.second, [], x, y);
    assert [] + x == x && [] + y == y;
    TwoDigits(a.minute, b.minute, UNDERSCORE, sa, sb);
    var ma, mb := Number(a.minute, 2) + (UNDERSCORE + sa), Number(b.minute, 2) + (UNDERSCORE + sb);
    TwoDigits(a.hour, b.hour, UNDERSCORE, ma, mb);
  }

  /** Names with zero-padded dates sort by date first, by description second. */
  lemma NameOrderIsDateOrder(prefix: seq<int>, a: Moment, b: Moment, x: seq<int>, y: seq<int>)
    requires FourDigitYear(a) && FourDigitYear(b)
    ensures Compare(BlobName(prefix, a, x), BlobName(prefix, b, y)) ==
      if Calendar(a, b) != 0 then Calendar(a, b) else Compare(x, y)
  {
    hide Number, Compare, ClockText;
    var ca, cb := ClockText(a, x), ClockText(b, y);
    var da, db := Number(a.day, 2) + (SPACE + ca), Number(b.day, 2) + (SPACE + cb);
    var ma, mb := Number(a.month, 2) + (DASH + da), Number(b.month, 2) + (DASH + db);
    ClockOrder(a, b, x, y);
    TwoDigits(a.day, b.day, SPACE, ca, cb);
    TwoDigits(a.month, b.month, DASH, da, db);
    assert Pow(10, 2) == 100 && Pow(10, 3) == 1000 && Pow(10, 4) == 10000;
    NumberThen(a.year, b.year, 4, DASH + ma, DASH + mb);
    ComparePrefix(DASH, ma, mb);
    ComparePrefix(prefix, Number(a.year, 4) + (DASH + ma), Number(b.year, 4) + (DASH + mb));
  }

  /** How the names of secondblobs show their dates: a common prefix, the date as
      `moment` gives it, zero-padded, and a description. */
  ghost predicate Padded(d: Dated, prefix: seq<int>, moment: Name -> Moment, clock: Moment -> Time) {
    && FourDigitYear(moment(d.name)) && d.stamp == clock(moment(d.name))
    && exists suffix :: d.name == BlobName(prefix, moment(d.name), suffix)
  }

  /** On the dates of these files the clock never goes back. */
  ghost predicate FollowsCalendar(s: seq<Dated>, moment: Name -> Moment, clock: Moment -> Time) {
    forall d, e :: d in s && e in s && Calendar(moment(d.name), moment(e.name)) < 0 ==>
      clock(moment(d.name)) <= clock(moment(e.name))
  }

  lemma CalendarZero(a: Moment, b: Moment)
    ensures Calendar(a, b) == 0 <==> a == b
    ensures Calendar(a, b) == -Calendar(b, a)
  {
  }

  /** With zero-padded names every row is matched by its own date if and only if the
      clock never goes back on those dates. */
  lemma PaddedNamesAlignIff(s: seq<Dated>, prefix: seq<int>, moment: Name -> Moment, clock: Moment -> Time)
    requires NamesAscend(s) && forall d :: d in s ==> Padded(d, prefix, moment, clock)
    ensures Aligned(s) <==> FollowsCalendar(s, moment, clock)
    ensures Aligned(s) <==> Sort(ByStampAndName, s) == s
  {
    AlignedIff(s);
    if FollowsCalendar(s, moment, clock) {
      ClockSorts(s, prefix, moment, clock);
    }
    if Sorted(ByStamp, s) {
      SortedClock(s, prefix, moment, clock);
    }
    hide *;
  }

  lemma ClockSorts(s: seq<Dated>, prefix: seq<int>, moment: Name -> Moment, clock: Moment -> Time)
    requires NamesAscend(s) && forall d :: d in s ==> Padded(d, prefix, moment, clock)
    requires FollowsCalendar(s, moment, clock)
    ensures Sorted(ByStamp, s)
  {
    hide NamesAscend, Calendar, Padded;
    forall i, j | 0 <= i < j < |s| ensures !ByStamp(s[j], s[i]) {
      NamesFollowDates(s, prefix, moment, clock, i, j);
      CalendarZero(moment(s[i].name), moment(s[j].name));
      assert s[i] in s && s[j] in s;
    }
  }

  lemma SortedClock(s: seq<Dated>, prefix: seq<int>, moment: Name -> Moment, clock: Moment -> Time)
    requires NamesAscend(s) && forall d :: d in s ==> Padded(d, prefix, moment, clock)
    requires Sorted(ByStamp, s)
    ensures FollowsCalendar(s, moment, clock)
  {
    hide NamesAscend, Calendar, Padded;
    forall d, e | d in s && e in s && Calendar(moment(d.name), moment(e.name)) < 0
      ensures clock(moment(d.name)) <= clock(moment(e.name))
    {
      var i :| 0 <= i < |s| && s[i] == d;
      var j :| 0 <= j < |s| && s[j] == e;
      CalendarZero(moment(d.name), moment(e.name));
      CalendarZero(moment(d.name), moment(d.name));
      if i < j {
        NamesFollowDates(s, prefix, moment, clock, i, j);
        assert !ByStamp(s[j], s[i]);
      } else if j < i {
        NamesFollowDates(s, prefix, moment, clock, j, i);
      }
    }
  }

  lemma NamesFollowDates(
      s: seq<Dated>, prefix: seq<int>, moment: Name -> Moment, clock: Moment -> Time, i: nat, j: nat)
    requires NamesAscend(s) && forall d :: d in s ==> Padded(d, prefix, moment, clock)
    requires i < j < |s|
    ensures Calendar(moment(s[i].name), moment(s[j].name)) <= 0
    ensures s[i].stamp == clock(moment(s[i].name)) && s[j].stamp == clock(moment(s[j].name))
  {
    assert Padded(s[i], prefix, moment, clock) && Padded(s[j], prefix, moment, clock);
    hide Compare, BlobName, FourDigitYear, Calendar;
    var a, b := moment(s[i].name), moment(s[j].name);
    var x :| s[i].name == BlobName(prefix, a, x);
    var y :| s[j].name == BlobName(prefix, b, y);
    NameOrderIsDateOrder(prefix, a, b, x, y);
  }

  ghost predicate Ascend(files: seq<Name>) {
    forall i, j :: 0 <= i < j < |files| ==> Compare(files[i], files[j]) < 0
  }

  lemma FilesAscend(entries: seq<Name>)
    requires forall i, j :: 0 <= i < j < |entries| ==> entries[i] != entries[j]
    ensures Ascend(Sort(ByName, entries))
    ensures forall g :: g in Sort(ByName, entries) <==> g in entries
  {
    var files := Sort(ByName, entries);
    ByNameIsOrder();
    SortSorted(ByName, entries);
    SortElements(ByName, entries);
    hide Sort;
    forall i, j | 0 <= i < j < |files| ensures Compare(files[i], files[j]) < 0 {
      assert !ByName(files[j], files[i]);
      CompareFlips(files[i], files[j]);
      CompareZero(files[i], files[j]);
      OnceEach(entries, files[i]);
      if files[i] == files[j] {
        TwiceThere(files, i, j);
        assert false;
      }
    }
  }

  lemma {:induction false} OnceEach(s: seq<Name>, x: Name)
    requires forall i, j :: 0 <= i < j < |s| ==> s[i] != s[j]
    ensures multiset(s)[x] <= 1
  {
    if s != [] {
      OnceEach(s[..|s| - 1], x);
      assert s == s[..|s| - 1] + [s[|s| - 1]];
    }
  }

  lemma TwiceThere(s: seq<Name>, i: nat, j: nat)
    requires i < j < |s| && s[i] == s[j]
    ensures multiset(s)[s[i]] >= 2
  {
    assert s == s[..j] + s[j..];
    assert s[..j][i] in multiset(s[..j]) && s[j..][0] in multiset(s[j..]);
  }

  /** In a directory whose secondblobs are named so, date i, by which row i is
      matched, is that of row i's own file for every row if and only if the clock
      never goes back on their dates. */
  lemma EveryRowItsOwnDateIff(
      entries: seq<Name>, kind: Name -> Kind, prefix: seq<int>, moment: Name -> Moment, clock: Moment -> Time)
    requires forall i, j :: 0 <= i < j < |entries| ==> entries[i] != entries[j]
    requires forall f :: f in entries && kind(f).SecondBlob? ==>
      Padded(Dated(kind(f).stamp, f), prefix, moment, clock)
    ensures var seconds := Seconds(Sort(ByName, entries), kind);
      && (forall d :: d in seconds ==> d.name in entries && kind(d.name) == SecondBlob(d.stamp))
      && (Sort(ByStampAndName, seconds) == seconds <==> FollowsCalendar(seconds, moment, clock))
  {
    hide Sort;
    FilesAscend(entries);
    var files := Sort(ByName, entries);
    SecondsFollowNames(files, kind);
    SecondsHold(files, kind);
    var seconds := Seconds(files, kind);
    forall d | d in seconds ensures Padded(d, prefix, moment, clock) {
      assert d.name in entries && kind(d.name) == SecondBlob(d.stamp);
    }
    PaddedNamesAlignIff(seconds, prefix, moment, clock);
  }

  /** Without padding the claim fails: month 10 sorts before month 9, so with a
      later and an earlier file the two rows exchange their dates. */
  lemma UnpaddedMonthsMisalign(prefix: seq<int>, x: seq<int>, y: seq<int>, september: Time, october: Time)
    requires september < october
    ensures var s := [Dated(october, prefix + [49, 48] + x), Dated(september, prefix + [57] + y)];
      NamesAscend(s) && !Aligned(s)
  {
    var n, m := prefix + [49, 48] + x, prefix + [57] + y;
    assert n == prefix + ([49, 48] + x) && m == prefix + ([57] + y);
    ComparePrefix(prefix, [49, 48] + x, [57] + y);
    var s := [Dated(october, n), Dated(september, m)];
    AlignedIff(s);
    assert s[0].stamp > s[1].stamp;
  }
}
