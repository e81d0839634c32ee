/** Working through a numbered queue: the chain of callbacks behind the window, and
    the loop of the console mode.

    `sees(i)` says that the file loop of task i found the halt event set, `set(i)`
    that the event was set by the time task i ended.  The event is never cleared
    during a run. */
module NeuterRun {

  ghost predicate Consistent(sees: nat -> bool, halted: nat -> bool) {
    && (forall i :: sees(i) ==> halted(i))
    && (forall i, j :: i <= j && halted(i) ==> halted(j))
  }

  function Upto(i: nat, k: nat): (r: seq<nat>)
    ensures |r| == if i <= k then k + 1 - i else 0
    ensures forall j :: 0 <= j < |r| ==> r[j] == i + j
  {
    if i <= k then seq(k + 1 - i, j requires 0 <= j < k + 1 - i => i + j) else []
  }

  /** The first task from `i` on that stops the run, or the last one. */
  function Stop(i: nat, n: nat, stops: nat -> bool): (k: nat)
    requires i <= n
    ensures i <= k <= n && (k == n || stops(k))
    ensures forall j :: i <= j < k ==> !stops(j)
    decreases n - i
  {
    if i == n || stops(i) then i else Stop(i + 1, n, stops)
  }

  lemma {:induction false} StopUnique(i: nat, n: nat, stops: nat -> bool, k: nat)
    requires i <= k <= n && (k == n || stops(k)) && forall j :: i <= j < k ==> !stops(j)
    ensures Stop(i, n, stops) == k
    decreases n - i
  {
    if i < k {
      StopUnique(i + 1, n, stops, k);
    }
  }

  class Runner {
    const taskCount: nat
    const sees: nat -> bool
    const halted: nat -> bool
    var started: seq<nat>  // task numbers, in the order their work began
    var stopEvents: nat    // how often `stop_event.set()` was called

    constructor (taskCount: nat, sees: nat -> bool, halted: nat -> bool)
      ensures this.taskCount == taskCount && this.sees == sees && this.halted == halted
      ensures started == [] && stopEvents == 0
    {
      this.taskCount, this.sees, this.halted := taskCount, sees, halted;
      started, stopEvents := [], 0;
    }

    /** `download_app`: however the work ends, its `finally` block either calls back
        or reports the end of the run. */
    method DownloadApp(taskId: nat, chained: bool)
      requires 1 <= taskId <= taskCount
      modifies this
      ensures chained ==> started == old(started) + Upto(taskId, Stop(taskId, taskCount, sees))
      ensures chained ==> stopEvents == old(stopEvents) + 1
      ensures !chained ==> started == old(started) + [taskId]
      ensures !chained ==> stopEvents == old(stopEvents) + if taskId == taskCount || sees(taskId) then 1 else 0
      decreases taskCount - taskId, 0
    {
      started := started + [taskId];
      var id := taskId;
      if sees(taskId) {
        id := taskCount;
      }
      if id < taskCount {
        if chained {
          CreateNextProgressBar(taskId + 1);
        }
      } else {
        stopEvents := stopEvents + 1;
      }
    }

    /** `create_next_progress_bar`: starts a task, if there is one left. */
    method CreateNextProgressBar(taskId: nat)
      requires 1 <= taskId
      modifies this
      ensures taskId <= taskCount ==> started == old(started) + Upto(taskId, Stop(taskId, taskCount, sees))
      ensures taskId <= taskCount ==> stopEvents == old(stopEvents) + 1
      ensures taskId > taskCount ==> started == old(started) && stopEvents == old(stopEvents)
      decreases taskCount - taskId, 1
    {
      if taskId <= taskCount {
        DownloadApp(taskId, true);
      }
    }

    /** `create_tkinter_window`: tasks 1, 2, ... each once, up to the first that saw
        the halt; the end is reported once. */
    method RunInWindow()
      modifies this
      ensures taskCount > 0 ==> started == old(started) + Upto(1, Stop(1, taskCount, sees))
      ensures taskCount > 0 ==> stopEvents == old(stopEvents) + 1
      ensures taskCount == 0 ==> started == old(started) && stopEvents == old(stopEvents)
    {
      CreateNextProgressBar(1);
    }

    /** `create_console_window`: the same tasks in a loop that looks at the halt event
        itself after each one. */
    method RunInConsole()
      requires Consistent(sees, halted)
      modifies this
      ensures taskCount > 0 ==> started == old(started) + Upto(1, Stop(1, taskCount, halted))
      ensures taskCount > 0 ==>
        var k := Stop(1, taskCount, halted);
        stopEvents == old(stopEvents) + if k == taskCount || sees(k) then 1 else 0
      ensures taskCount == 0 ==> started == old(started) && stopEvents == old(stopEvents)
    {
      var taskId := 1;
      while taskId < taskCount + 1
        invariant 1 <= taskId <= taskCount + 1
        invariant forall j :: 1 <= j < taskId ==> !halted(j)
        invariant started == old(started) + Upto(1, taskId - 1)
        invariant stopEvents == old(stopEvents) + if 0 < taskCount < taskId then 1 else 0
      {
        DownloadApp(taskId, false);
        assert Upto(1, taskId) == Upto(1, taskId - 1) + [taskId];
        if halted(taskId) {
          StopUnique(1, taskCount, halted, taskId);
          return;
        }
        taskId := taskId + 1;
      }
      if taskCount > 0 {
        StopUnique(1, taskCount, halted, taskCount);
      }
    }
  }

  /** The console never goes further than the window, and they run the same tasks
      exactly when the first task to end with the halt set also saw it, or is the
      last one, or there is none. */
  lemma SameTasksIff(n: nat, sees: nat -> bool, halted: nat -> bool)
    requires n > 0 && Consistent(sees, halted)
    ensures Stop(1, n, halted) <= Stop(1, n, sees)
    ensures var k := Stop(1, n, halted);
      Upto(1, k) == Upto(1, Stop(1, n, sees)) <==> k == n || sees(k)
  {
    var k, w := Stop(1, n, halted), Stop(1, n, sees);
    if sees(k) || k == n {
      StopUnique(1, n, sees, k);
    }
    if Upto(1, k) == Upto(1, w) {
      assert |Upto(1, k)| == |Upto(1, w)|;
    }
  }

  /** Without a halt both run every task. */
  lemma NoHaltRunsAll(n: nat, sees: nat -> bool, halted: nat -> bool)
    requires n > 0 && Consistent(sees, halted) && forall i :: !halted(i)
    ensures Stop(1, n, sees) == n && Stop(1, n, halted) == n
  {
    StopUnique(1, n, sees, n);
    StopUnique(1, n, halted, n);
  }
}
