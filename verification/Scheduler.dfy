/**
 The code of kernel/task.c (schedule and the lists it works on) and of kernel/wait_queue.c (wake_up),
 proved against the state machine in `SchedulerSteps`.
 */
module Scheduler {
  import opened Common
  import opened TaskState
  import opened SchedulerSteps

  lemma {:induction false} PickSnoc(tasks: Tasks, s: seq<nat>, x: nat, want: set<State>)
    ensures Pick(tasks, s + [x], want) ==
            Pick(tasks, s, want) + (if x in tasks && tasks[x].state in want then [x] else [])
  {
    if s == [] {
      assert [x][1..] == [];
    } else {
      var head := if s[0] in tasks && tasks[s[0]].state in want then [s[0]] else [];
      var last := if x in tasks && tasks[x].state in want then [x] else [];
      PickSnoc(tasks, s[1..], x, want);
      PickHead(tasks, s, want, head);
      PickHead(tasks, s + [x], want, head);
      assert (s + [x])[1..] == s[1..] + [x];
      hide Pick;
      assert head + (Pick(tasks, s[1..], want) + last) == head + Pick(tasks, s[1..], want) + last;
    }
  }

  /**
   The lists after the first `i` tasks of the blocking list `all` were looked at; `k` is the place of the next one.
   */
  ghost predicate Scanned(tasks: Tasks, all: seq<nat>, i: nat, k: nat, blocking: seq<nat>, put: seq<nat>,
                          zombies: seq<nat>)
    requires i <= |all|
  {
    && k == |Pick(tasks, all[..i], ASLEEP)| && blocking == Pick(tasks, all[..i], ASLEEP) + all[i..]
    && put == Pick(tasks, all[..i], UP) && zombies == Pick(tasks, all[..i], {Zombie})
  }

  lemma ScanStart(tasks: Tasks, all: seq<nat>)
    ensures Scanned(tasks, all, 0, 0, all, [], [])
  {
  }

  lemma ScanEnd(tasks: Tasks, all: seq<nat>, k: nat, blocking: seq<nat>, put: seq<nat>, zombies: seq<nat>)
    requires Scanned(tasks, all, |all|, k, blocking, put, zombies)
    ensures blocking == Pick(tasks, all, ASLEEP) && put == Pick(tasks, all, UP) && zombies == Pick(tasks, all, {Zombie})
  {
    assert all[..|all|] == all;
  }

  lemma ScanHas(tasks: Tasks, all: seq<nat>, i: nat, k: nat, blocking: seq<nat>, put: seq<nat>, zombies: seq<nat>)
    requires i < |all| && Scanned(tasks, all, i, k, blocking, put, zombies)
    ensures k < |blocking| && blocking[k] == all[i]
  {
  }

  lemma ScanStep(tasks: Tasks, all: seq<nat>, i: nat, k: nat, blocking: seq<nat>, put: seq<nat>, zombies: seq<nat>)
    requires i < |all| && all[i] in tasks && Scanned(tasks, all, i, k, blocking, put, zombies) && k < |blocking|
    ensures var x := all[i]; var st := tasks[x].state;
            Scanned(tasks, all, i + 1, if st in ASLEEP then k + 1 else k,
                    if st in ASLEEP then blocking else blocking[..k] + blocking[k + 1..],
                    put + (if st in UP then [x] else []), zombies + (if st in {Zombie} then [x] else []))
  {
    hide Pick;
    var x, kept := all[i], Pick(tasks, all[..i], ASLEEP);
    assert all[..i + 1] == all[..i] + [x] && all[i..] == [x] + all[i + 1..];
    assert blocking[..k] == kept && blocking[k + 1..] == all[i + 1..];
    PickSnoc(tasks, all[..i], x, UP);
    PickSnoc(tasks, all[..i], x, ASLEEP);
    PickSnoc(tasks, all[..i], x, {Zombie});
  }

  lemma WaitersSnoc(tasks: Tasks, done: seq<nat>, e: nat, x: nat)
    requires e in tasks
    ensures x in Waiters(tasks, done + [e]) <==> x in Waiters(tasks, done) || x in tasks[e].waiters
  {
    assert forall y :: y in done + [e] <==> y in done || y == e;
  }

  /** One more exiting task: its waiters are woken, then it is gone. */
  lemma DrainStep(tasks: Tasks, done: seq<nat>, e: nat, woken: Tasks)
    requires WaitersLive(tasks) && e in tasks && tasks[e].state.Exiting? && e !in done
    requires woken.Keys == Drained(tasks, done).Keys
    requires forall x :: x in woken ==>
               woken[x] == if x in tasks[e].waiters then Woken(Drained(tasks, done)[x]) else Drained(tasks, done)[x]
    ensures woken - {e} == Drained(tasks, done + [e])
  {
    forall x | x in woken && x != e
      ensures woken[x] == Drained(tasks, done + [e])[x]
    {
      WaitersSnoc(tasks, done, e, x);
    }
  }

  class KernelScheduler {
    const idle: nat
    var tasks: Tasks
    var ready: seq<nat>
    var blocking: seq<nat>
    var exiting: seq<nat>
    var zombies: seq<nat>
    var current: Option<nat>
    ghost var reclaimed: seq<nat>

    ghost function View(): Sched
      reads this
    {
      Sched(tasks, ready, blocking, exiting, zombies, current, idle, reclaimed)
    }

    constructor (idle: nat)
      ensures this.idle == idle
      ensures View() == Sched(map[idle := Task(Running, Zombie, [])], [], [], [], [], None, idle, [])
    {
      this.idle := idle;
      tasks := map[idle := Task(Running, Zombie, [])];
      ready, blocking, exiting, zombies := [], [], [], [];
      current, reclaimed := None, [];
    }

    /** task_put */
    method TaskPut(x: nat)
      modifies this`ready
      ensures ready == old(ready) + [x]
    {
      ready := ready + [x];
    }

    /** wake_up: raw_task_wake_up on every entry of a wait queue; its default branch is not reached. */
    method WakeUpAll(queue: seq<nat>)
      requires forall w :: w in queue ==> Wakeable(tasks, w)
      modifies this`tasks
      ensures tasks.Keys == old(tasks).Keys
      ensures forall x :: x in tasks ==> tasks[x] == if x in queue then Woken(old(tasks)[x]) else old(tasks)[x]
    {
      for i := 0 to |queue|
        invariant tasks.Keys == old(tasks).Keys
        invariant forall x :: x in tasks ==> tasks[x] == if x in queue[..i] then Woken(old(tasks)[x]) else old(tasks)[x]
      {
        var w := queue[i];
        assert Wakeable(old(tasks), w);
        tasks := tasks[w := WakeUp(tasks[w])];
        assert queue[..i + 1] == queue[..i] + [w];
      }
      assert queue[..|queue|] == queue;
    }

    /** process_blocking_task_list */
    method ProcessBlockingTaskList()
      requires forall x :: x in blocking ==> x in tasks
      modifies this`ready, this`blocking, this`zombies
      ensures ready == old(ready) + Pick(tasks, old(blocking), UP)
      ensures blocking == Pick(tasks, old(blocking), ASLEEP)
      ensures zombies == old(zombies) + Pick(tasks, old(blocking), {Zombie})
    {
      hide Pick, Scanned;
      ghost var all, put, zom := blocking, [], [];
      ScanStart(tasks, all);
      var n, k := |blocking|, 0;
      for i := 0 to n
        invariant Scanned(tasks, all, i, k, blocking, put, zom)
                  && ready == old(ready) + put && zombies == old(zombies) + zom
      {
        ScanHas(tasks, all, i, k, blocking, put, zom);
        ScanStep(tasks, all, i, k, blocking, put, zom);
        var x := blocking[k];
        k := Dispatch(x, k);
        put := put + (if tasks[x].state in UP then [x] else []);
        zom := zom + (if tasks[x].state in {Zombie} then [x] else []);
      }
      ScanEnd(tasks, all, k, blocking, put, zom);
    }

    /** What becomes of the task at place `k` of the blocking list; the result is the place of the next one. */
    method Dispatch(x: nat, k: nat) returns (next: nat)
      requires k < |blocking| && blocking[k] == x && x in tasks
      modifies this`ready, this`blocking, this`zombies
      ensures next == if tasks[x].state in ASLEEP then k + 1 else k
      ensures blocking == if tasks[x].state in ASLEEP then old(blocking)
                                  else old(blocking)[..k] + old(blocking)[k + 1..]
      ensures ready == old(ready) + (if tasks[x].state in UP then [x] else [])
      ensures zombies == old(zombies) + (if tasks[x].state in {Zombie} then [x] else [])
    {
      next := k;
      match tasks[x].state {
        case Running | Exiting =>
          blocking := blocking[..k] + blocking[k + 1..];
          TaskPut(x);
        case Interruptible | Uninterruptible =>
          next := k + 1;
        case Zombie =>
          blocking := blocking[..k] + blocking[k + 1..];
          zombies := zombies + [x];
      }
    }

    static lemma PickNil(tasks: Tasks)
      ensures forall want :: Pick(tasks, [], want) == []
    {
    }

    /** process_exit_task_list with reclaim_task: every exiting task notifies its waiters and is gone. */
    method ProcessExitTaskList()
      requires WaitersLive(tasks) && Distinct(exiting)
               && forall e :: e in exiting ==> e in tasks && tasks[e].state.Exiting?
      modifies this`tasks, this`exiting, this`reclaimed
      ensures tasks == Drained(old(tasks), old(exiting)) && exiting == [] && reclaimed == old(reclaimed) + old(exiting)
    {
      ghost var was, all, n := tasks, exiting, 0;
      while exiting != []
        invariant n <= |all| && exiting == all[n..] && tasks == Drained(was, all[..n])
        invariant reclaimed == old(reclaimed) + all[..n]
        decreases |exiting|
      {
        var e := exiting[0];
        exiting := exiting[1..];
        ReclaimOne(e, was, all[..n]);
        n := n + 1;
        assert all[..n] == all[..n - 1] + [e];
      }
      assert all[..n] == all;
    }

    method ReclaimOne(e: nat, ghost was: Tasks, ghost done: seq<nat>)
      requires WaitersLive(was) && e in was && was[e].state.Exiting? && e !in done && tasks == Drained(was, done)
      requires forall d :: d in done ==> d in was && was[d].state.Exiting?
      modifies this`tasks, this`reclaimed
      ensures tasks == Drained(was, done + [e]) && reclaimed == old(reclaimed) + [e]
    {
      assert tasks[e].state.Exiting? && tasks[e].waiters == was[e].waiters;
      forall w | w in tasks[e].waiters
        ensures Wakeable(tasks, w)
      {
        assert Wakeable(was, w);
      }
      WakeUpAll(tasks[e].waiters);
      DrainStep(was, done, e, tasks);
      tasks := tasks - {e};
      reclaimed := reclaimed + [e];
    }

    /** The loop of schedule that picks the next task. */
    method PickNext() returns (next: Option<nat>)
      requires forall x :: x in ready ==> x in tasks
      modifies this`ready, this`blocking, this`exiting, this`zombies
      ensures var all := old(ready); var k := FirstRunning(tasks, all);
              && next == (if k < |all| then Some(all[k]) else None)
              && ready == (if k < |all| then all[k + 1..] else [])
              && blocking == old(blocking) + Pick(tasks, all[..k], ASLEEP)
              && exiting == old(exiting) + Pick(tasks, all[..k], {Exiting})
              && zombies == old(zombies) + Pick(tasks, all[..k], {Zombie})
    {
      hide Pick, FirstRunning;
      ghost var all, n := ready, 0;
      PickNil(tasks);
      next := None;
      while ready != []
        invariant n <= |all| && ready == all[n..] && next == None
        invariant forall i :: 0 <= i < n ==> !IsRunning(tasks, all[i])
        invariant blocking == old(blocking) + Pick(tasks, all[..n], ASLEEP)
        invariant exiting == old(exiting) + Pick(tasks, all[..n], {Exiting})
        invariant zombies == old(zombies) + Pick(tasks, all[..n], {Zombie})
        decreases |ready|
      {
        var x := ready[0];
        ready := ready[1..];
        assert x == all[n] && all[..n + 1] == all[..n] + [x];
        PickSnoc(tasks, all[..n], x, ASLEEP);
        PickSnoc(tasks, all[..n], x, {Exiting});
        PickSnoc(tasks, all[..n], x, {Zombie});
        match tasks[x].state {
          case Exiting => exiting := exiting + [x];
          case Running =>
            assert n == FirstRunning(tasks, all);
            return Some(x);
          case Zombie => zombies := zombies + [x];
          case Interruptible | Uninterruptible => blocking := blocking + [x];
        }
        n := n + 1;
      }
      assert n == FirstRunning(tasks, all);
    }

    /** schedule */
    method Schedule()
      requires Inv(View()) && Distinct(exiting)
      modifies this
      ensures View() == After(old(View())) && current.Some?
    {
      hide Inv, WaitersLive, Pick, FirstRunning, Drained;
      ghost var s := View();
      Ready(s);
      PutBackCurrent();
      ProcessBlockingTaskList();
      assert ready == Candidates(s);
      ProcessExitTaskList();
      current := PickNext();
      if current.None? {
        current := Some(idle);
      }
    }

    method PutBackCurrent()
      modifies this`ready, this`current
      ensures current == None && ready == old(Line(View()))
    {
      if current.Some? {
        if current.value != idle {
          TaskPut(current.value);
        }
        current := None;
      }
    }

    /** What the steps of schedule rely on. */
    lemma Ready(s: Sched)
      requires Inv(s)
      ensures WaitersLive(s.tasks) && forall e :: e in s.exiting ==> e in s.tasks && s.tasks[e].state.Exiting?
      ensures forall x :: x in s.blocking ==> x in s.tasks
      ensures forall x :: x in Candidates(s) ==> x in Drained(s.tasks, s.exiting)
    {
      BlockingLive(s);
      CandidatesCount(s);
    }

    lemma BlockingLive(s: Sched)
      requires Inv(s)
      ensures forall x :: x in s.blocking ==> x in s.tasks
    {
      forall x | x in s.blocking
        ensures x in s.tasks
      {
        KnownLive(s, x);
      }
    }
  }
}
