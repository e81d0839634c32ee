/** The administration server's blob index: secondblobs matched to the firstblob in
    force at their date, once by binary search over sorted timestamps and once by
    filtering the dates themselves.  The local clock, which turns the one into the
    other, is a function: it need not follow the dates. */
module BlobIndex {
  import opened Results
  import opened Bytes
  import opened Ordering

  type Time = real
  type Name = seq<int>  // a file name, as code points

  /** A file with a point in time: the date its name shows, or the timestamp of it. */
  datatype Dated = Dated(stamp: Time, name: Name)

  predicate ByStamp(a: Dated, b: Dated) {
    a.stamp < b.stamp
  }

  /** The order of `(timestamp, filename)` tuples. */
  predicate ByStampAndName(a: Dated, b: Dated) {
    a.stamp < b.stamp || (a.stamp == b.stamp && Compare(a.name, b.name) < 0)
  }

  /** The order of a descending sort on the date. */
  predicate ByStampDown(a: Dated, b: Dated) {
    a.stamp > b.stamp
  }

  // ----- Binary search over the sorted firstblobs -----

  function Stamps(s: seq<Dated>): (r: seq<Time>)
    ensures |r| == |s| && forall i :: 0 <= i < |s| ==> r[i] == s[i].stamp
  {
    seq(|s|, i requires 0 <= i < |s| => s[i].stamp)
  }

  /** `bisect_right`: the insertion point after every element not above `x`. */
  function BisectRight(a: seq<Time>, x: Time): (i: nat)
    ensures i <= |a| && (i > 0 ==> a[i - 1] <= x)
    ensures forall j :: i <= j < |a| ==> a[j] > x
  {
    if a == [] then 0 else if a[|a| - 1] <= x then |a| else BisectRight(a[..|a| - 1], x)
  }

  /** The match as the caching code makes it, with its test on the entry found. */
  function SearchMatch(sorted: seq<Dated>, x: Time): Option<Dated> {
    var timestamps := Stamps(sorted);
    var idx := BisectRight(timestamps, x) - 1;
    if idx >= 0 then
      var gap := timestamps[idx] - x;
      if (if gap < 0.0 then -gap else gap) < 1.0 || timestamps[idx] <= x then Some(sorted[idx]) else None
    else None
  }

  // ----- Filtering, as the list request does it -----

  function NotAfter(s: seq<Dated>, x: Time): seq<Dated> {
    if s == [] then []
    else NotAfter(s[..|s| - 1], x) + (if s[|s| - 1].stamp <= x then [s[|s| - 1]] else [])
  }

  function FilterMatch(s: seq<Dated>, x: Time): Option<Dated> {
    var matching := Sort(ByStampDown, NotAfter(s, x));
    if matching != [] then Some(matching[0]) else None
  }

  // ----- What both should find -----

  /** The newest entry not after `x`; of several, the last or the first in the list. */
  function Newest(s: seq<Dated>, x: Time, last: bool): Option<Dated> {
    if s == [] then None else
      var best, e := Newest(s[..|s| - 1], x, last), s[|s| - 1];
      if e.stamp <= x && (best.None? || best.value.stamp < e.stamp || (last && best.value.stamp == e.stamp))
      then Some(e) else best
  }

  /** `Newest` is an entry of the list, not after `x`, and no entry in between is newer. */
  lemma {:induction false} NewestIsBest(s: seq<Dated>, x: Time, last: bool)
    ensures var r := Newest(s, x, last);
      && (r.Some? ==> r.value in s && r.value.stamp <= x)
      && (r.Some? ==> forall e :: e in s && e.stamp <= x ==> e.stamp <= r.value.stamp)
      && (r.None? ==> forall e :: e in s ==> e.stamp > x)
  {
    if s != [] {
      NewestIsBest(s[..|s| - 1], x, last);
      assert s == s[..|s| - 1] + [s[|s| - 1]];
    }
  }

  lemma ByStampIsOrder()
    ensures StrictOrder(ByStamp)
  {
  }

  /** The last entry of an ascending list that is not after `x`. */
  function LastUpTo(s: seq<Dated>, x: Time): Option<Dated> {
    if s == [] then None
    else if s[|s| - 1].stamp <= x then Some(s[|s| - 1])
    else LastUpTo(s[..|s| - 1], x)
  }

  lemma {:induction false} SearchIsLast(s: seq<Dated>, x: Time)
    ensures SearchMatch(s, x) == LastUpTo(s, x)
  {
    if s != [] {
      var init := s[..|s| - 1];
      SearchIsLast(init, x);
      assert Stamps(s)[..|s| - 1] == Stamps(init);
    }
  }

  lemma {:induction false} LastUpToBest(s: seq<Dated>, x: Time)
    requires Sorted(ByStamp, s)
    ensures LastUpTo(s, x).None? ==> forall d :: d in s ==> d.stamp > x
    ensures LastUpTo(s, x).Some? ==> LastUpTo(s, x).value in s && LastUpTo(s, x).value.stamp <= x
    ensures LastUpTo(s, x).Some? ==>
      forall d :: d in s && d.stamp <= x ==> d.stamp <= LastUpTo(s, x).value.stamp
  {
    if s != [] && s[|s| - 1].stamp > x {
      LastUpToBest(s[..|s| - 1], x);
      assert s == s[..|s| - 1] + [s[|s| - 1]];
    }
  }

  lemma {:induction false} LastAfterInsert(e: Dated, s: seq<Dated>, x: Time)
    requires Sorted(ByStamp, s)
    ensures LastUpTo(Insert(ByStamp, e, s), x) ==
      var best := LastUpTo(s, x);
      if e.stamp <= x && (best.None? || best.value.stamp <= e.stamp) then Some(e) else best
  {
    if s == [] {
    } else if ByStamp(e, s[|s| - 1]) {
      LastAfterInsert(e, s[..|s| - 1], x);
      var r := Insert(ByStamp, e, s);
      assert r[..|r| - 1] == Insert(ByStamp, e, s[..|s| - 1]);
    } else {
      assert (s + [e])[..|s|] == s;
      LastUpToBest(s, x);
    }
  }

  lemma {:induction false} SearchFindsNewest(s: seq<Dated>, x: Time)
    ensures SearchMatch(Sort(ByStamp, s), x) == Newest(s, x, true)
  {
    SearchIsLast(Sort(ByStamp, s), x);
    if s != [] {
      var init := s[..|s| - 1];
      SearchFindsNewest(init, x);
      SearchIsLast(Sort(ByStamp, init), x);
      ByStampIsOrder();
      SortSorted(ByStamp, init);
      LastAfterInsert(s[|s| - 1], Sort(ByStamp, init), x);
    }
  }

  lemma {:induction false} InsertDownHead(e: Dated, s: seq<Dated>)
    requires s != [] && forall i :: 0 <= i < |s| ==> s[i].stamp <= s[0].stamp
    ensures var r := Insert(ByStampDown, e, s);
      && r != [] && r[0] == (if e.stamp > s[0].stamp then e else s[0])
      && forall i :: 0 <= i < |r| ==> r[i].stamp <= r[0].stamp
  {
    if ByStampDown(e, s[|s| - 1]) && |s| > 1 {
      InsertDownHead(e, s[..|s| - 1]);
    }
  }

  lemma SortAppend(s: seq<Dated>, e: Dated)
    ensures Sort(ByStampDown, s + [e]) == Insert(ByStampDown, e, Sort(ByStampDown, s))
    ensures Insert(ByStampDown, e, []) == [e]
  {
    assert (s + [e])[..|s|] == s;
  }

  lemma SortEmpty()
    ensures Sort(ByStampDown, []) == []
  {
  }

  lemma {:induction false} FilterFindsNewest(s: seq<Dated>, x: Time)
    ensures FilterMatch(s, x) == Newest(s, x, false)
    ensures var m := Sort(ByStampDown, NotAfter(s, x));
      m != [] ==> forall i :: 0 <= i < |m| ==> m[i].stamp <= m[0].stamp
  {
    SortEmpty();
    hide Sort, Insert;
    if s != [] {
      var init, e := s[..|s| - 1], s[|s| - 1];
      FilterFindsNewest(init, x);
      var before := NotAfter(init, x);
      var m := Sort(ByStampDown, before);
      if e.stamp <= x {
        SortAppend(before, e);
        if m != [] {
          InsertDownHead(e, m);
        }
      } else {
        assert NotAfter(s, x) == before;
      }
    }
  }

  // ----- Dates and timestamps -----

  /** The same files with the timestamps of their dates. */
  function Stamped(files: seq<Dated>, clock: Time -> Time): (r: seq<Dated>)
    ensures |r| == |files|
    ensures forall i :: 0 <= i < |r| ==> r[i] == Dated(clock(files[i].stamp), files[i].name)
  {
    seq(|files|, i requires 0 <= i < |files| => Dated(clock(files[i].stamp), files[i].name))
  }

  /** The search, over timestamps, and the filter, over dates, find nothing together
      or entries of the same timestamp. */
  predicate Agree(files: seq<Dated>, x: Time, clock: Time -> Time) {
    var p, q := SearchMatch(Sort(ByStamp, Stamped(files, clock)), clock(x)), FilterMatch(files, x);
    (p.None? <==> q.None?) && (p.Some? ==> p.value.stamp == clock(q.value.stamp))
  }

  /** On these dates the clock never stands still or goes back. */
  ghost predicate Increasing(clock: Time -> Time, dates: iset<Time>) {
    forall d, e :: d in dates && e in dates && d < e ==> clock(d) < clock(e)
  }

  ghost predicate DatedIn(files: seq<Dated>, dates: iset<Time>) {
    forall i :: 0 <= i < |files| ==> files[i].stamp in dates
  }

  lemma {:induction false} NewestStamped(files: seq<Dated>, x: Time, clock: Time -> Time, dates: iset<Time>, last: bool)
    requires Increasing(clock, dates) && DatedIn(files, dates) && x in dates
    ensures var r := Newest(files, x, last);
      Newest(Stamped(files, clock), clock(x), last) ==
        if r.Some? then Some(Dated(clock(r.value.stamp), r.value.name)) else None
  {
    if files != [] {
      var n := |files| - 1;
      NewestStamped(files[..n], x, clock, dates, last);
      assert Stamped(files, clock)[..n] == Stamped(files[..n], clock);
      NewestIsBest(files[..n], x, last);
    }
  }

  /** A later date with an earlier timestamp, or the same: the search takes a file of
      the later date to be in force at the earlier one, the filter does not. */
  lemma FoundTooEarly(date: Time, later: Time, name: Name, clock: Time -> Time)
    requires date < later && clock(later) <= clock(date)
    ensures var files := [Dated(later, name)];
      && SearchMatch(Sort(ByStamp, Stamped(files, clock)), clock(date)) == Some(Dated(clock(later), name))
      && FilterMatch(files, date) == None
  {
    var files := [Dated(later, name)];
    var s := Stamped(files, clock);
    SearchFindsNewest(s, clock(date));
    FilterFindsNewest(files, date);
    assert s[..0] == [] && files[..0] == [];
    assert Newest([], clock(date), true) == None && Newest([], date, false) == None;
  }

  /** The two lookups agree on all files and queries with these dates if and only if
      the clock increases on them. */
  lemma LookupsAgreeIff(dates: iset<Time>, clock: Time -> Time)
    ensures Increasing(clock, dates) <==>
      forall files, x :: DatedIn(files, dates) && x in dates ==> Agree(files, x, clock)
  {
    if Increasing(clock, dates) {
      forall files, x | DatedIn(files, dates) && x in dates ensures Agree(files, x, clock) {
        LookupsAgree(files, x, clock, dates);
      }
    } else {
      var d, e :| d in dates && e in dates && d < e && clock(e) <= clock(d);
      FoundTooEarly(d, e, [], clock);
      assert DatedIn([Dated(e, [])], dates) && !Agree([Dated(e, [])], d, clock);
    }
  }

  /** Then both find a firstblob of the newest date not after the secondblob's, the
      search the last in the list with that date, the filter the first. */
  lemma LookupsAgree(files: seq<Dated>, x: Time, clock: Time -> Time, dates: iset<Time>)
    requires Increasing(clock, dates) && DatedIn(files, dates) && x in dates
    ensures Agree(files, x, clock)
    ensures var p, q := SearchMatch(Sort(ByStamp, Stamped(files, clock)), clock(x)), FilterMatch(files, x);
      && (p.Some? ==> Newest(files, x, true).Some?)
      && (p.Some? ==> p.value == Dated(clock(q.value.stamp), Newest(files, x, true).value.name))
      && (q.Some? ==> q.value in files && q.value.stamp <= x)
      && (q.Some? ==> forall e :: e in files && e.stamp <= x ==> e.stamp <= q.value.stamp)
  {
    hide SearchMatch, FilterMatch, Sort;
    SearchFindsNewest(Stamped(files, clock), clock(x));
    NewestStamped(files, x, clock, dates, true);
    FilterFindsNewest(files, x);
    NewestIsBest(files, x, true);
    NewestIsBest(files, x, false);
  }

  /** With distinct firstblob dates the two lookups choose the same file. */
  lemma LookupsChooseSameFile(files: seq<Dated>, x: Time, clock: Time -> Time, dates: iset<Time>)
    requires Increasing(clock, dates) && DatedIn(files, dates) && x in dates
    requires forall d, e :: d in files && e in files && d.stamp == e.stamp ==> d.name == e.name
    ensures var p, q := SearchMatch(Sort(ByStamp, Stamped(files, clock)), clock(x)), FilterMatch(files, x);
      p == if q.Some? then Some(Dated(clock(q.value.stamp), q.value.name)) else None
  {
    hide SearchMatch, FilterMatch, Sort;
    LookupsAgree(files, x, clock, dates);
    NewestIsBest(files, x, true);
    NewestIsBest(files, x, false);
    FilterFindsNewest(files, x);
  }
}
