/** The queue of storages to neuter, and the two ways of working through it. */
module NeuterQueue {
  import opened Bytes
  import opened Ordering

  datatype App = App(version: nat, betaversion: nat, name: Bytes)
  datatype Task = Task(appid: nat, version: nat, name: Bytes)

  /** What is on disk when the queue is built. */
  datatype Disk = Disk(cached: set<(nat, nat)>, ceg: set<(nat, nat)>)

  // ----- What is queued -----

  /** Whether a version of an application is queued, from the list named. */
  predicate Wanted(disk: Disk, fromCeg: bool, appid: nat, version: nat) {
    (fromCeg ==> (appid, version) in disk.ceg) && (appid, version) !in disk.cached
  }

  /** The tasks one application adds: its version, then its beta version if another. */
  function Jobs(apps: map<nat, App>, disk: Disk, fromCeg: bool, appid: nat): seq<Task> {
    if appid !in apps then [] else
      var app := apps[appid];
      (if Wanted(disk, fromCeg, appid, app.version) then [Task(appid, app.version, app.name)] else [])
      + (if app.betaversion != app.version && Wanted(disk, fromCeg, appid, app.betaversion)
         then [Task(appid, app.betaversion, app.name)] else [])
  }

  function Queue(apps: map<nat, App>, disk: Disk, fromCeg: bool, ids: seq<nat>): seq<Task> {
    if ids == [] then []
    else Queue(apps, disk, fromCeg, ids[..|ids| - 1]) + Jobs(apps, disk, fromCeg, ids[|ids| - 1])
  }

  /** The tasks found, before sorting. */
  function Found(apps: map<nat, App>, disk: Disk, ids: seq<nat>, cegIds: seq<nat>): seq<Task> {
    Queue(apps, disk, false, ids) + Queue(apps, disk, true, cegIds)
  }

  /** The order of `[appid, version, name, ...]` lists. */
  predicate ByTask(a: Task, b: Task) {
    a.appid < b.appid || (a.appid == b.appid &&
      (a.version < b.version || (a.version == b.version && Compare(a.name, b.name) < 0)))
  }

  predicate ById(a: nat, b: nat) {
    a < b
  }

  /** Application ids found as custom configuration files join the list once each. */
  function Extended(ids: seq<nat>, custom: seq<nat>): seq<nat> {
    if custom == [] then ids else
      var r := Extended(ids, custom[..|custom| - 1]);
      if custom[|custom| - 1] in r then r else r + [custom[|custom| - 1]]
  }

  /** The list stays in front, gains exactly the new ids, and gains none twice. */
  lemma {:induction false} ExtendedHolds(ids: seq<nat>, custom: seq<nat>)
    ensures var r := Extended(ids, custom);
      && ids <= r
      && (forall id :: id in r <==> id in ids || id in custom)
      && (forall i, j :: |ids| <= j < |r| && 0 <= i < j ==> r[i] != r[j])
  {
    if custom != [] {
      var n := |custom| - 1;
      ExtendedHolds(ids, custom[..n]);
      assert custom == custom[..n] + [custom[n]];
    }
  }

  /** A dictionary with keys 1, 2, ... in the order of a list. */
  function Numbered(s: seq<Task>): map<nat, Task> {
    if s == [] then map[] else Numbered(s[..|s| - 1])[|s| := s[|s| - 1]]
  }

  lemma {:induction false} NumberedKeys(s: seq<Task>)
    ensures forall k :: k in Numbered(s) <==> 1 <= k <= |s|
    ensures forall k :: 1 <= k <= |s| ==> Numbered(s)[k] == s[k - 1]
  {
    if s != [] {
      NumberedKeys(s[..|s| - 1]);
    }
  }

  /** The part of `auto_neuter` that fills the queue: tasks get consecutive numbers
      as they are found, then are sorted and numbered again. */
  method AutoNeuter(neuterApplist: seq<nat>, cegApplist: seq<nat>, custom: seq<nat>, applist: map<nat, App>, disk: Disk)
    returns (neuterApps: seq<nat>, appsToNeuter: map<nat, Task>)
    ensures neuterApps == Sort(ById, Extended(neuterApplist, custom))
    ensures appsToNeuter == Numbered(Sort(ByTask, Found(applist, disk, neuterApps, cegApplist)))
  {
    hide Sort;
    neuterApps := neuterApplist;
    for k := 0 to |custom|
      invariant neuterApps == Extended(neuterApplist, custom[..k])
    {
      assert custom[..k + 1][..k] == custom[..k];
      if custom[k] !in neuterApps {
        neuterApps := neuterApps + [custom[k]];
      }
    }
    assert custom[..|custom|] == custom;
    neuterApps := Sort(ById, neuterApps);
    var queue: seq<Task> := [];  // the dictionary from 1 on, in key order
    for k := 0 to |neuterApps|
      invariant queue == Queue(applist, disk, false, neuterApps[..k])
    {
      assert neuterApps[..k + 1][..k] == neuterApps[..k];
      queue := Enqueue(queue, applist, disk, false, neuterApps[k]);
    }
    assert neuterApps[..|neuterApps|] == neuterApps;
    ghost var first := queue;
    for k := 0 to |cegApplist|
      invariant queue == first + Queue(applist, disk, true, cegApplist[..k])
    {
      assert cegApplist[..k + 1][..k] == cegApplist[..k];
      queue := Enqueue(queue, applist, disk, true, cegApplist[k]);
    }
    assert cegApplist[..|cegApplist|] == cegApplist;
    var res := Sort(ByTask, queue);
    appsToNeuter := map[];
    var neuterIdSorted := 1;
    while neuterIdSorted <= |res|
      invariant 1 <= neuterIdSorted <= |res| + 1
      invariant appsToNeuter == Numbered(res[..neuterIdSorted - 1])
    {
      assert res[..neuterIdSorted][..neuterIdSorted - 1] == res[..neuterIdSorted - 1];
      appsToNeuter := appsToNeuter[neuterIdSorted := res[neuterIdSorted - 1]];
      neuterIdSorted := neuterIdSorted + 1;
    }
    assert res[..|res|] == res;
  }

  /** One turn of either loop over applications. */
  method Enqueue(queue: seq<Task>, applist: map<nat, App>, disk: Disk, fromCeg: bool, appid: nat) returns (r: seq<Task>)
    ensures r == queue + Jobs(applist, disk, fromCeg, appid)
  {
    r := queue;
    if appid in applist {
      var app := applist[appid];
      if (fromCeg ==> (appid, app.version) in disk.ceg) && (appid, app.version) !in disk.cached {
        r := r + [Task(appid, app.version, app.name)];
      }
      if app.betaversion != app.version && (fromCeg ==> (appid, app.betaversion) in disk.ceg)
         && (appid, app.betaversion) !in disk.cached {
        r := r + [Task(appid, app.betaversion, app.name)];
      }
    }
  }

  // ----- The finished queue -----

  /** A version of a listed application that is not in the cache and, from the second
      list, has a directory of its own. */
  predicate Due(apps: map<nat, App>, disk: Disk, ids: seq<nat>, fromCeg: bool, t: Task) {
    t.appid in ids && t.appid in apps && t.name == apps[t.appid].name &&
    (t.version == apps[t.appid].version || t.version == apps[t.appid].betaversion) &&
    (t.appid, t.version) !in disk.cached && (fromCeg ==> (t.appid, t.version) in disk.ceg)
  }

  lemma {:induction false} QueueHolds(apps: map<nat, App>, disk: Disk, fromCeg: bool, ids: seq<nat>, t: Task)
    ensures t in Queue(apps, disk, fromCeg, ids) <==> Due(apps, disk, ids, fromCeg, t)
  {
    if ids != [] {
      QueueHolds(apps, disk, fromCeg, ids[..|ids| - 1], t);
      assert ids == ids[..|ids| - 1] + [ids[|ids| - 1]];
    }
  }

  /** Sorted applications ascend. */
  lemma IdsAscend(ids: seq<nat>)
    ensures var r := Sort(ById, ids);
      && (forall i, j :: 0 <= i < j < |r| ==> r[i] <= r[j])
      && multiset(r) == multiset(ids)
  {
    assert StrictOrder(ById);
    SortSorted(ById, ids);
    SortElements(ById, ids);
    hide Sort;
  }

  /** The sorted queue holds exactly the uncached versions of the listed
      applications: from the second list only those with a directory of their own. */
  lemma SortedQueueHolds(apps: map<nat, App>, disk: Disk, ids: seq<nat>, cegIds: seq<nat>, t: Task)
    ensures t in Sort(ByTask, Found(apps, disk, ids, cegIds)) <==>
      Due(apps, disk, ids, false, t) || Due(apps, disk, cegIds, true, t)
  {
    hide Sort;
    var q := Found(apps, disk, ids, cegIds);
    QueueHolds(apps, disk, false, ids, t);
    QueueHolds(apps, disk, true, cegIds, t);
    SortElements(ByTask, q);
    assert t in q <==> t in multiset(q);
    assert t in Sort(ByTask, q) <==> t in multiset(Sort(ByTask, q));
  }

  // ----- Repeated pairs -----

  predicate SamePair(a: Task, b: Task) {
    a.appid == b.appid && a.version == b.version
  }

  ghost predicate NoRepeats(s: seq<Task>) {
    forall i, j :: 0 <= i < j < |s| ==> !SamePair(s[i], s[j])
  }

  ghost predicate Apart(s: seq<Task>, t: seq<Task>) {
    forall a, b :: a in s && b in t ==> !SamePair(a, b)
  }

  /** An application listed again adds nothing the second time. */
  ghost predicate RepeatsIdle(apps: map<nat, App>, disk: Disk, fromCeg: bool, ids: seq<nat>) {
    forall i, j :: 0 <= i < j < |ids| && ids[i] == ids[j] ==> Jobs(apps, disk, fromCeg, ids[j]) == []
  }

  /** No application with anything to do is listed a second time. */
  ghost predicate ListedOnce(apps: map<nat, App>, disk: Disk, ids: seq<nat>, cegIds: seq<nat>) {
    && RepeatsIdle(apps, disk, false, ids)
    && RepeatsIdle(apps, disk, true, cegIds)
    && forall id :: id in ids && id in cegIds ==> Jobs(apps, disk, true, id) == []
  }

  lemma AppendNoRepeats(s: seq<Task>, t: seq<Task>)
    ensures NoRepeats(s + t) <==> NoRepeats(s) && NoRepeats(t) && Apart(s, t)
  {
    var r := s + t;
    if NoRepeats(r) {
      assert forall i :: 0 <= i < |s| ==> s[i] == r[i];
      assert forall j :: 0 <= j < |t| ==> t[j] == r[|s| + j];
    }
  }

  lemma JobsNoRepeats(apps: map<nat, App>, disk: Disk, fromCeg: bool, appid: nat)
    ensures NoRepeats(Jobs(apps, disk, fromCeg, appid))
    ensures forall t :: t in Jobs(apps, disk, fromCeg, appid) <==> Due(apps, disk, [appid], fromCeg, t)
  {
  }

  lemma ApartSplit(s: seq<Task>, t: seq<Task>, u: seq<Task>)
    ensures Apart(s, t + u) <==> Apart(s, t) && Apart(s, u)
  {
    if Apart(s, t + u) {
      assert forall a :: a in t || a in u ==> a in t + u;
    }
  }

  /** What an application adds is apart from a queue exactly when the application
      is not listed there, or adds nothing. */
  lemma JobsApartIff(apps: map<nat, App>, disk: Disk, listed: bool, ids: seq<nat>, fromCeg: bool, id: nat)
    requires listed ==> fromCeg
    ensures Apart(Queue(apps, disk, listed, ids), Jobs(apps, disk, fromCeg, id)) <==>
      (id in ids ==> Jobs(apps, disk, fromCeg, id) == [])
  {
    hide Queue, Jobs;
    var q, jobs := Queue(apps, disk, listed, ids), Jobs(apps, disk, fromCeg, id);
    JobsNoRepeats(apps, disk, fromCeg, id);
    forall t ensures t in q <==> Due(apps, disk, ids, listed, t) {
      QueueHolds(apps, disk, listed, ids, t);
    }
    if id in ids && jobs != [] {
      assert jobs[0] in jobs && jobs[0] in q && SamePair(jobs[0], jobs[0]);
    }
  }

  /** One list alone. */
  lemma {:induction false} QueueNoRepeatsIff(apps: map<nat, App>, disk: Disk, fromCeg: bool, ids: seq<nat>)
    ensures NoRepeats(Queue(apps, disk, fromCeg, ids)) <==> RepeatsIdle(apps, disk, fromCeg, ids)
  {
    if ids != [] {
      var n := |ids| - 1;
      var init, last := ids[..n], ids[n];
      QueueNoRepeatsIff(apps, disk, fromCeg, init);
      AppendNoRepeats(Queue(apps, disk, fromCeg, init), Jobs(apps, disk, fromCeg, last));
      JobsNoRepeats(apps, disk, fromCeg, last);
      JobsApartIff(apps, disk, fromCeg, init, fromCeg, last);
      RepeatsIdleAppend(apps, disk, fromCeg, ids);
    }
  }

  lemma RepeatsIdleAppend(apps: map<nat, App>, disk: Disk, fromCeg: bool, ids: seq<nat>)
    requires ids != []
    ensures var n := |ids| - 1;
      RepeatsIdle(apps, disk, fromCeg, ids) <==>
      RepeatsIdle(apps, disk, fromCeg, ids[..n]) && (ids[n] in ids[..n] ==> Jobs(apps, disk, fromCeg, ids[n]) == [])
  {
    hide Jobs;
    var n := |ids| - 1;
    if RepeatsIdle(apps, disk, fromCeg, ids) && ids[n] in ids[..n] {
      var i :| 0 <= i < n && ids[..n][i] == ids[n];
      assert ids[i] == ids[n];
    }
  }

  /** The two lists together. */
  lemma {:induction false} QueuesApartIff(apps: map<nat, App>, disk: Disk, ids: seq<nat>, cegIds: seq<nat>)
    ensures Apart(Queue(apps, disk, false, ids), Queue(apps, disk, true, cegIds)) <==>
      forall id :: id in ids && id in cegIds ==> Jobs(apps, disk, true, id) == []
  {
    if cegIds != [] {
      var n := |cegIds| - 1;
      QueuesApartIff(apps, disk, ids, cegIds[..n]);
      JobsApartIff(apps, disk, false, ids, true, cegIds[n]);
      var init, last := Queue(apps, disk, true, cegIds[..n]), Jobs(apps, disk, true, cegIds[n]);
      ApartSplit(Queue(apps, disk, false, ids), init, last);
      assert cegIds == cegIds[..n] + [cegIds[n]];
    }
  }

  /** The queue is free of repeated (appid, version) pairs exactly when no
      application with uncached versions is listed twice, within a list or in both. */
  lemma NoRepeatsIff(apps: map<nat, App>, disk: Disk, ids: seq<nat>, cegIds: seq<nat>)
    ensures NoRepeats(Found(apps, disk, ids, cegIds)) <==> ListedOnce(apps, disk, ids, cegIds)
  {
    QueueNoRepeatsIff(apps, disk, false, ids);
    QueueNoRepeatsIff(apps, disk, true, cegIds);
    QueuesApartIff(apps, disk, ids, cegIds);
    AppendNoRepeats(Queue(apps, disk, false, ids), Queue(apps, disk, true, cegIds));
  }

  // ----- The order of the finished queue -----

  predicate Before(a: Task, b: Task) {
    a.appid < b.appid || (a.appid == b.appid && a.version < b.version)
  }

  lemma ByTaskIsOrder()
    ensures StrictOrder(ByTask)
  {
    forall a, b ensures Compare(a, b) == -Compare(b, a) {
      CompareFlips(a, b);
    }
    forall a: Task, b: Task, c: Task | !ByTask(b, a) && !ByTask(c, b) ensures !ByTask(c, a) {
      if a.appid == b.appid == c.appid && a.version == b.version == c.version {
        CompareTransitive(a.name, b.name, c.name);
      }
    }
  }

  lemma ApartFromOne(s: seq<Task>, init: seq<Task>, t: Task, last: Task)
    requires forall u :: u in s <==> u == last || u in init
    ensures Apart(s, [t]) <==> Apart(init, [t]) && !SamePair(t, last)
  {
    if Apart(s, [t]) {
      assert last in s && t in [t];
    }
  }

  lemma {:induction false} InsertNoRepeats(t: Task, s: seq<Task>)
    ensures NoRepeats(Insert(ByTask, t, s)) <==> NoRepeats(s) && Apart(s, [t])
    ensures forall u :: u in Insert(ByTask, t, s) <==> u == t || u in s
  {
    if s != [] && ByTask(t, s[|s| - 1]) {
      var init, last := s[..|s| - 1], s[|s| - 1];
      assert s == init + [last];
      InsertNoRepeats(t, init);
      var r := Insert(ByTask, t, init);
      AppendNoRepeats(r, [last]);
      AppendNoRepeats(init, [last]);
      hide Insert, ByTask, NoRepeats, Apart;
      ApartFromOne(s, init, t, last);
      ApartFromOne(r, init, last, t);
      OneNoRepeats(last);
    } else {
      AppendNoRepeats(s, [t]);
      OneNoRepeats(t);
      hide ByTask, NoRepeats, Apart;
    }
  }

  lemma OneNoRepeats(t: Task)
    ensures NoRepeats([t])
  {
  }

  lemma {:induction false} SortNoRepeats(s: seq<Task>)
    ensures NoRepeats(Sort(ByTask, s)) <==> NoRepeats(s)
    ensures forall u :: u in Sort(ByTask, s) <==> u in s
  {
    if s != [] {
      var init, last := s[..|s| - 1], s[|s| - 1];
      assert s == init + [last];
      SortNoRepeats(init);
      InsertNoRepeats(last, Sort(ByTask, init));
      AppendNoRepeats(init, [last]);
    }
  }

  /** The numbered queue: keys 1 to n, in strictly ascending (appid, version) order
      exactly when no application with something to do is listed twice. */
  lemma NumberedInOrderIff(apps: map<nat, App>, disk: Disk, ids: seq<nat>, cegIds: seq<nat>)
    ensures var found := Found(apps, disk, ids, cegIds);
      var m := Numbered(Sort(ByTask, found));
      && (forall k :: k in m <==> 1 <= k <= |found|)
      && ((forall i, j :: 1 <= i < j <= |found| ==> Before(m[i], m[j])) <==> ListedOnce(apps, disk, ids, cegIds))
  {
    hide Sort, Numbered, Found, ListedOnce;
    var found := Found(apps, disk, ids, cegIds);
    var s := Sort(ByTask, found);
    var m := Numbered(s);
    NumberedKeys(s);
    SortElements(ByTask, found);
    assert |s| == |multiset(s)| && |found| == |multiset(found)|;
    ByTaskIsOrder();
    SortSorted(ByTask, found);
    SortNoRepeats(found);
    NoRepeatsIff(apps, disk, ids, cegIds);
    if NoRepeats(s) {
      forall i, j | 1 <= i < j <= |found| ensures Before(m[i], m[j]) {
        assert !SamePair(s[i - 1], s[j - 1]) && !ByTask(s[j - 1], s[i - 1]);
      }
    }
    if forall i, j :: 1 <= i < j <= |found| ==> Before(m[i], m[j]) {
      forall i, j | 0 <= i < j < |s| ensures !SamePair(s[i], s[j]) {
        assert Before(m[i + 1], m[j + 1]);
      }
    }
  }
}
