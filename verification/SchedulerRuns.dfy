/**
 Runs of the scheduler of kernel/task.c: calls of schedule with anything else in between - tasks are
 created, sleep, wait for each other, are woken, stopped, continued, and exit.
 */
module SchedulerRuns {
  import opened Common
  import opened TaskState
  import opened SchedulerSteps

  datatype Step =
    | Spawn(id: nat)
    | Sleep(target: Option<nat>)  // the current task waits, for a task to terminate or for something else
    | LeaveWait(awaited: nat)      // the current task, running again, takes itself off a wait queue
    | WakeTask(id: nat)
    | StopTask(id: nat)
    | ContinueTask(id: nat)
    | ExitCurrent
    | Schedule

  ghost predicate WaitsForNobody(s: Sched, c: nat) {
    forall x :: x in s.tasks ==> c !in s.tasks[x].waiters
  }

  /** When a step can happen; the waits of kernel/task_misc.c do not nest and end before the task exits. */
  ghost predicate Enabled(s: Sched, step: Step)
    requires Inv(s)
  {
    match step
    case Spawn(id) => id !in s.tasks && id !in s.reclaimed
    case Sleep(target) =>
      && CurrentTask(s) != [] && Wakeable(s.tasks, s.current.value) && WaitsForNobody(s, s.current.value)
      && (target.Some? ==> Wakeable(s.tasks, target.value))
    case LeaveWait(target) => CurrentTask(s) != [] && target in s.tasks
    case WakeTask(id) => Wakeable(s.tasks, id)
    case StopTask(id) => id in s.tasks && id != s.idle
    case ContinueTask(id) => id in s.tasks
    case ExitCurrent =>
      CurrentTask(s) != [] && IsRunning(s.tasks, s.current.value) && WaitsForNobody(s, s.current.value)
    case Schedule => true
  }

  function Without(s: seq<nat>, c: nat): (r: seq<nat>)
    ensures forall x :: x in r <==> x in s && x != c
  {
    if s == [] then [] else (if s[0] == c then [] else [s[0]]) + Without(s[1..], c)
  }

  function Enqueue(tasks: Tasks, target: Option<nat>, c: nat): Tasks
    requires target.Some? ==> target.value in tasks
  {
    if target.None? then tasks
    else tasks[target.value := tasks[target.value].(waiters := tasks[target.value].waiters + [c])]
  }

  ghost function Next(s: Sched, step: Step): Sched
    requires Inv(s)
  {
    if !Enabled(s, step) then s
    else match step
      case Spawn(id) => s.(tasks := s.tasks[id := Task(Running, Zombie, [])], ready := s.ready + [id])
      case Sleep(target) =>
        var c := s.current.value;
        var tasks := Enqueue(s.tasks, target, c);
        s.(tasks := tasks[c := Transit(tasks[c], Interruptible)])
      case LeaveWait(target) =>
        s.(tasks := s.tasks[target := s.tasks[target].(waiters := Without(s.tasks[target].waiters, s.current.value))])
      case WakeTask(id) => s.(tasks := s.tasks[id := WakeUp(s.tasks[id])])
      case StopTask(id) => s.(tasks := s.tasks[id := Stop(s.tasks[id])])
      case ContinueTask(id) => s.(tasks := s.tasks[id := Continue(s.tasks[id])])
      case ExitCurrent =>
        KnownLive(s, s.current.value);
        s.(tasks := s.tasks[s.current.value := Transit(s.tasks[s.current.value], Exiting)])
      case Schedule => After(s)
  }

  /** Tasks changed, queues did not. */
  lemma SameQueues(s: Sched, r: Sched)
    requires Reached(s) && r == s.(tasks := r.tasks) && r.tasks.Keys == s.tasks.Keys
    requires WaitersLive(r.tasks) && r.tasks[s.idle].state.Running?
    requires forall x :: x in s.tasks && s.tasks[x].state.Exiting? ==> r.tasks[x].state.Exiting?
    requires NoneExits(r)
    requires forall e, w :: Pending(r.tasks, e, w) ==> Pending(s.tasks, e, w) || w in s.blocking || Ahead(Line(s), w, e)
    ensures Reached(r)
  {
    hide Known, Line;
    assert Known(r) == Known(s) && Line(r) == Line(s) by {
      SameLines(s, r);
    }
    forall e, w | Pending(r.tasks, e, w)
      ensures w in r.blocking || Ahead(Line(r), w, e)
    {
    }
  }

  lemma SameLines(s: Sched, r: Sched)
    requires r == s.(tasks := r.tasks)
    ensures Known(r) == Known(s) && Line(r) == Line(s)
  {
  }

  /** One task changed but kept its waiters and its effective state or woke up. */
  lemma ReactKeeps(s: Sched, x: nat, t: Task)
    requires Reached(s) && x in s.tasks && Sound(t) && t.waiters == s.tasks[x].waiters
    requires t.state.Exiting? == s.tasks[x].state.Exiting? && (x == s.idle ==> t.state.Running?)
    requires Effective(t).Interruptible? ==> Effective(s.tasks[x]).Interruptible?
    ensures Reached(s.(tasks := s.tasks[x := t]))
  {
    var r := s.(tasks := s.tasks[x := t]);
    forall y, w | y in r.tasks && w in r.tasks[y].waiters
      ensures Wakeable(r.tasks, w)
    {
      assert Wakeable(s.tasks, w);
    }
    SameQueues(s, r);
  }

  lemma SpawnKeeps(s: Sched, id: nat)
    requires Reached(s) && id !in s.tasks && id !in s.reclaimed
    ensures Reached(Next(s, Spawn(id)))
  {
    hide Known, Line;
    var r := Next(s, Spawn(id));
    SpawnCounts(s, r, id);
    SpawnLine(s, r, id);
    forall y, w | y in r.tasks && w in r.tasks[y].waiters
      ensures Wakeable(r.tasks, w)
    {
      assert Wakeable(s.tasks, w);
    }
    forall e, w | Pending(r.tasks, e, w)
      ensures w in r.blocking || Ahead(Line(r), w, e)
    {
      assert Pending(s.tasks, e, w);
      if w !in s.blocking {
        SpawnKeepsAhead(s, id, w, e);
      }
    }
  }

  lemma SpawnCounts(s: Sched, r: Sched, id: nat)
    requires Inv(s) && id !in s.tasks
    requires r == s.(tasks := s.tasks[id := Task(Running, Zombie, [])], ready := s.ready + [id])
    ensures multiset(Known(r)) == multiset(r.tasks.Keys - {r.idle})
  {
    hide WaitersLive;
    assert Known(r) == s.ready + [id] + s.blocking + s.exiting + CurrentTask(s);
    assert r.tasks.Keys - {s.idle} == (s.tasks.Keys - {s.idle}) + {id};
    assert multiset(Known(r)) == multiset(Known(s)) + multiset{id};
  }

  lemma SpawnLine(s: Sched, r: Sched, id: nat)
    requires r.ready == s.ready + [id] && r.current == s.current && r.idle == s.idle
    ensures Line(r) == s.ready + [id] + CurrentTask(s)
  {
  }

  lemma SpawnKeepsAhead(s: Sched, id: nat, w: nat, e: nat)
    requires Ahead(Line(s), w, e)
    ensures Ahead(s.ready + [id] + CurrentTask(s), w, e)
  {
    var i, j :| 0 <= i < j < |Line(s)| && Line(s)[i] == w && Line(s)[j] == e;
    var n, line := |s.ready|, s.ready + [id] + CurrentTask(s);
    assert line[if i < n then i else i + 1] == w && line[if j < n then j else j + 1] == e;
  }

  lemma SleepKeeps(s: Sched, target: Option<nat>)
    requires Reached(s) && Enabled(s, Sleep(target))
    ensures Reached(Next(s, Sleep(target)))
  {
    var r, c := Next(s, Sleep(target)), s.current.value;
    forall y, w | y in r.tasks && w in r.tasks[y].waiters
      ensures Wakeable(r.tasks, w)
    {
      assert w != c ==> Wakeable(s.tasks, w);
    }
    SameQueues(s, r);
  }

  lemma LeaveWaitKeeps(s: Sched, target: nat)
    requires Reached(s) && Enabled(s, LeaveWait(target))
    ensures Reached(Next(s, LeaveWait(target)))
  {
    var r := Next(s, LeaveWait(target));
    forall y, w | y in r.tasks && w in r.tasks[y].waiters
      ensures Wakeable(r.tasks, w)
    {
      assert Wakeable(s.tasks, w);
    }
    SameQueues(s, r);
  }

  lemma ExitKeeps(s: Sched)
    requires Reached(s) && Enabled(s, ExitCurrent)
    ensures Reached(Next(s, ExitCurrent))
  {
    var r, c := Next(s, ExitCurrent), s.current.value;
    KnownLive(s, c);
    forall y, w | y in r.tasks && w in r.tasks[y].waiters
      ensures Wakeable(r.tasks, w)
    {
      assert Wakeable(s.tasks, w);
    }
    forall e, w | Pending(r.tasks, e, w)
      ensures Pending(s.tasks, e, w) || w in s.blocking || Ahead(Line(s), w, e)
    {
      if e == c {
        assert Wakeable(s.tasks, w);
        KnownLive(s, w);
        if w in s.ready {
          var i :| 0 <= i < |s.ready| && s.ready[i] == w;
          assert Line(s)[i] == w && Line(s)[|s.ready|] == c;
        }
      }
    }
    assert c in Line(s);
    Apart(s, c);
    SameQueues(s, r);
  }

  lemma ScheduleKeeps(s: Sched)
    requires Reached(s)
    ensures Reached(After(s))
  {
    hide After, Inv, WaitOrder, NoneExits;
    AfterKeepsInv(s);
    AfterKeepsOrder(s);
    AfterNoneExits(s);
    ReclaimedOnce(s);
  }

  lemma ReclaimedOnce(s: Sched)
    requires Reached(s)
    ensures Distinct(After(s).reclaimed) && forall x :: x in After(s).reclaimed ==> x !in After(s).tasks
  {
    hide Candidates, Pick, FirstRunning, WaitOrder, WaitersLive;
    ExitListDistinct(s);
    var r := s.reclaimed + s.exiting;
    assert After(s).reclaimed == r;
    assert forall x :: x in s.exiting ==> x in s.tasks;
    forall i, j | 0 <= i < j < |r|
      ensures r[i] != r[j]
    {
      if i < |s.reclaimed| <= j {
        assert r[i] in s.reclaimed && r[j] in s.exiting;
      }
    }
  }

  lemma ExitListDistinct(s: Sched)
    requires Inv(s)
    ensures Distinct(s.exiting)
  {
    hide WaitersLive;
    assert multiset(Known(s)) == multiset(Line(s)) + multiset(s.blocking) + multiset(s.exiting);
    forall i, j | 0 <= i < j < |s.exiting|
      ensures s.exiting[i] != s.exiting[j]
    {
      var x := s.exiting[j];
      assert s.exiting == s.exiting[..j] + [x] + s.exiting[j + 1..];
      assert multiset(s.exiting)[x] <= multiset(Known(s))[x] <= 1;
      assert x !in multiset(s.exiting[..j]);
      assert s.exiting[..j][i] == s.exiting[i];
    }
  }

  /** Whatever happens, the queues stay in order and no task is reclaimed twice. */
  lemma NextKeeps(s: Sched, step: Step)
    requires Reached(s)
    ensures Reached(Next(s, step))
  {
    hide WaitOrder, NoneExits, After, Reached, Inv, Known, Wakeable;
    assert Inv(s) by {
      ReachedInv(s);
    }
    if Enabled(s, step) {
      match step
      case Spawn(id) => SpawnKeeps(s, id);
      case Sleep(target) => SleepKeeps(s, target);
      case LeaveWait(target) => LeaveWaitKeeps(s, target);
      case WakeTask(id) => WakeKeeps(s, id);
      case StopTask(id) => StopKeeps(s, id);
      case ContinueTask(id) => ContinueKeeps(s, id);
      case ExitCurrent => ExitKeeps(s);
      case Schedule => ScheduleKeeps(s);
    }
  }

  lemma ReachedInv(s: Sched)
    requires Reached(s)
    ensures Inv(s)
  {
  }

  lemma WakeKeeps(s: Sched, id: nat)
    requires Reached(s) && Enabled(s, WakeTask(id))
    ensures Reached(Next(s, WakeTask(id)))
  {
    hide WaitOrder, Known, NoneExits;
    ReactKeeps(s, id, WakeUp(s.tasks[id]));
  }

  lemma StopKeeps(s: Sched, id: nat)
    requires Reached(s) && Enabled(s, StopTask(id))
    ensures Reached(Next(s, StopTask(id)))
  {
    hide WaitOrder, Known, NoneExits;
    assert Sound(s.tasks[id]);
    ReactKeeps(s, id, Stop(s.tasks[id]));
  }

  lemma ContinueKeeps(s: Sched, id: nat)
    requires Reached(s) && Enabled(s, ContinueTask(id))
    ensures Reached(Next(s, ContinueTask(id)))
  {
    hide WaitOrder, Known, NoneExits;
    assert Sound(s.tasks[id]);
    ReactKeeps(s, id, Continue(s.tasks[id]));
  }

  ghost function Exec(s: Sched, steps: seq<Step>): (r: Sched)
    requires Reached(s)
    ensures Reached(r)
    decreases |steps|
  {
    if steps == [] then s
    else
      NextKeeps(s, steps[0]);
      Exec(Next(s, steps[0]), steps[1..])
  }

  /** task_pre_init and task_init: no task but the idle one. */
  function Boot(idle: nat): Sched {
    Sched(map[idle := Task(Running, Zombie, [])], [], [], [], [], None, idle, [])
  }

  /**
   After every run from boot: each live task but the idle one is in exactly one queue or current, the zombie list is
   empty, the exit list holds only exiting tasks, and no task was reclaimed twice or is still around after it.
   */
  lemma RunsStayInOrder(idle: nat, steps: seq<Step>)
    ensures Reached(Boot(idle))
    ensures var s := Exec(Boot(idle), steps);
            && multiset(s.ready) + multiset(s.blocking) + multiset(s.exiting) + multiset(CurrentTask(s)) ==
               multiset(s.tasks.Keys - {s.idle})
            && s.zombies == [] && (forall e :: e in s.exiting ==> e in s.tasks && s.tasks[e].state.Exiting?)
            && Distinct(s.reclaimed) && (forall x :: x in s.reclaimed ==> x !in s.tasks)
  {
    var b := Boot(idle);
    assert b.tasks.Keys - {idle} == {};
    assert Reached(b);
    var s := Exec(b, steps);
    assert multiset(Known(s)) ==
           multiset(s.ready) + multiset(s.blocking) + multiset(s.exiting) + multiset(CurrentTask(s));
  }

  // ---------------------------------------------------------------- bounded waiting

  function Schedules(steps: seq<Step>): nat {
    if steps == [] then 0 else (if steps[0].Schedule? then 1 else 0) + Schedules(steps[1..])
  }

  ghost predicate StaysRunning(s: Sched, steps: seq<Step>, x: nat)
    requires Reached(s)
    decreases |steps|
  {
    && IsRunning(s.tasks, x)
    && (steps != [] ==> (NextKeeps(s, steps[0]); StaysRunning(Next(s, steps[0]), steps[1..], x)))
  }

  ghost predicate BecomesCurrent(s: Sched, steps: seq<Step>, x: nat)
    requires Reached(s)
    decreases |steps|
  {
    || s.current == Some(x)
    || (steps != [] && (NextKeeps(s, steps[0]); BecomesCurrent(Next(s, steps[0]), steps[1..], x)))
  }

  /** Between two calls of schedule a task keeps its place in the ready list. */
  lemma PlaceKept(s: Sched, step: Step, k: nat)
    requires Reached(s) && !step.Schedule? && k < |s.ready|
    ensures k < |Next(s, step).ready| && Next(s, step).ready[k] == s.ready[k]
  {
  }

  lemma CandidateAt(s: Sched, k: nat)
    requires k < |s.ready|
    ensures k < |Candidates(s)| && Candidates(s)[k] == s.ready[k]
  {
  }

  /** A running candidate is picked by this call or is then ready, ahead of its place among the candidates. */
  lemma CandidateMovesUp(s: Sched, x: nat, k: nat)
    requires Reached(s) && k < |Candidates(s)| && Candidates(s)[k] == x && x in Known(s) && IsRunning(s.tasks, x)
    ensures After(s).current == Some(x) || exists j :: 0 <= j < k && j < |After(s).ready| && After(s).ready[j] == x
  {
    hide Candidates, Drained, Pick, FirstRunning, Inv, WaitOrder, NoneExits;
    var all, tasks := Candidates(s), Drained(s.tasks, s.exiting);
    RunningIsCandidate(s, x);
    var f := FirstRunning(tasks, all);
    if f < k {
      assert After(s).ready[k - f - 1] == all[k];
    }
  }

  lemma NextIsAfter(s: Sched)
    requires Reached(s)
    ensures Next(s, Schedule) == After(s)
  {
    hide Inv, WaitOrder, After;
  }

  /**
   A task that stays running at place `k` of the ready list becomes current within k + 1 calls, whatever the others
   do.
   */
  lemma {:induction false} BoundedWait(s: Sched, steps: seq<Step>, x: nat, k: nat)
    requires Reached(s) && k < |s.ready| && s.ready[k] == x && StaysRunning(s, steps, x) && Schedules(steps) >= k + 1
    ensures BecomesCurrent(s, steps, x)
    decreases |steps|
  {
    hide Inv, WaitOrder, Next, After, IsRunning;
    NextIsAfter(s);
    NextKeeps(s, steps[0]);
    var r := Next(s, steps[0]);
    if steps[0].Schedule? {
      CandidateAt(s, k);
      assert x in Known(s);
      CandidateMovesUp(s, x, k);
      if r.current != Some(x) {
        var j :| 0 <= j < k && j < |r.ready| && r.ready[j] == x;
        BoundedWait(r, steps[1..], x, j);
      }
    } else {
      PlaceKept(s, steps[0], k);
      BoundedWait(r, steps[1..], x, k);
    }
  }

  /** Where a task woken on the blocking list stands among the candidates. */
  lemma WokenCandidate(s: Sched, x: nat) returns (k: nat)
    requires x in s.blocking && IsRunning(s.tasks, x)
    ensures k < |Candidates(s)| && Candidates(s)[k] == x && k <= |s.ready| + |s.blocking|
  {
    var up := Pick(s.tasks, s.blocking, UP);
    PickShorter(s.tasks, s.blocking, UP);
    assert x in up;
    k := |s.ready| + |CurrentTask(s)| + Position(up, x);
  }

  lemma {:induction false} PickShorter(tasks: Tasks, s: seq<nat>, want: set<State>)
    ensures |Pick(tasks, s, want)| <= |s|
  {
    if s != [] {
      PickShorter(tasks, s[1..], want);
    }
  }

  lemma BlockingKept(s: Sched, step: Step)
    requires Reached(s) && !step.Schedule?
    ensures Next(s, step).blocking == s.blocking
  {
  }

  /**
   A task woken on the blocking list that stays running becomes current, whatever the others do: within one call more
   than there are tasks on the ready list at the next call and on the blocking list.
   */
  lemma {:induction false} BoundedWaitWoken(s: Sched, steps: seq<Step>, x: nat)
    requires Reached(s) && x in s.blocking && StaysRunning(s, steps, x)
    requires Schedules(steps) >= ReadyAtCall(s, steps) + 1 + |s.blocking|
    ensures BecomesCurrent(s, steps, x)
    decreases |steps|
  {
    hide Inv, WaitOrder, NoneExits, Next, After, IsRunning;
    NextIsAfter(s);
    NextKeeps(s, steps[0]);
    var r := Next(s, steps[0]);
    if steps[0].Schedule? {
      var k := WokenCandidate(s, x);
      assert x in Known(s);
      CandidateMovesUp(s, x, k);
      if r.current != Some(x) {
        var j :| 0 <= j < k && j < |r.ready| && r.ready[j] == x;
        BoundedWait(r, steps[1..], x, j);
      }
    } else {
      BlockingKept(s, steps[0]);
      BoundedWaitWoken(r, steps[1..], x);
    }
  }

  /** A current task that stays running has its turn again, within one call more than tasks are ready. */
  lemma BoundedReturn(s: Sched, steps: seq<Step>, x: nat)
    requires Reached(s) && CurrentTask(s) == [x] && StaysRunning(s, [Schedule] + steps, x)
    requires Schedules(steps) >= |s.ready|
    ensures Reached(After(s)) && BecomesCurrent(After(s), steps, x)
  {
    hide Inv, WaitOrder, NoneExits, Next, After, IsRunning;
    NextIsAfter(s);
    NextKeeps(s, Schedule);
    assert ([Schedule] + steps)[1..] == steps;
    var r, k := After(s), |s.ready|;
    assert Candidates(s)[k] == x && x in Known(s);
    CandidateMovesUp(s, x, k);
    if r.current != Some(x) {
      var j :| 0 <= j < k && j < |r.ready| && r.ready[j] == x;
      BoundedWait(r, steps, x, j);
    }
  }

  // ---------------------------------------------------------------- waiting for another task

  /** A task that goes to sleep until another one terminates is asleep and among that task's waiters. */
  lemma SleepWaits(s: Sched, target: nat)
    requires Reached(s) && Enabled(s, Sleep(Some(target)))
    ensures var r, c := Next(s, Sleep(Some(target))), s.current.value;
            && target in r.tasks && c in r.tasks && c in r.tasks[target].waiters
            && Effective(r.tasks[c]).Interruptible?
  {
  }

  /**
   Reclaiming a task wakes everyone who waits for it: a sleeper runs, a stopped one will when it is continued.  No other
   task is touched.
   */
  lemma ReclaimWakes(s: Sched, e: nat, w: nat)
    requires Reached(s) && e in s.exiting && w in s.tasks[e].waiters
    ensures w in After(s).tasks && e !in After(s).tasks && Effective(After(s).tasks[w]).Running?
    ensures After(s).tasks[w].state.Uninterruptible? <==> s.tasks[w].state.Uninterruptible?
    ensures forall x :: x in s.tasks && x !in s.exiting && (forall d :: d in s.exiting ==> x !in s.tasks[d].waiters) ==>
              x in After(s).tasks && After(s).tasks[x] == s.tasks[x]
  {
    hide Candidates, Pick, FirstRunning, WaitOrder, NoneExits, Known;
    assert Wakeable(s.tasks, w);
    assert w in Waiters(s.tasks, s.exiting);
  }

  // ---------------------------------------------------------------- bounded reclamation

  /** `x` is exiting and at most `n` calls of schedule from being reclaimed. */
  ghost predicate Leaving(s: Sched, x: nat, n: nat) {
    || x in s.reclaimed
    || (n >= 1 && x in s.exiting)
    || (n >= 2 && x in s.tasks && s.tasks[x].state.Exiting?
        && exists k :: 0 <= k <= n - 2 && k < |s.ready| && s.ready[k] == x)
  }

  lemma ScheduleMovesOn(s: Sched, x: nat, n: nat)
    requires Reached(s) && Leaving(s, x, n) && n >= 1
    ensures Leaving(After(s), x, n - 1)
  {
    if x !in s.reclaimed && x !in s.exiting {
      var k :| 0 <= k <= n - 2 && k < |s.ready| && s.ready[k] == x;
      ExitingMovesUp(s, x, k);
    }
  }

  lemma ExitingMovesUp(s: Sched, x: nat, k: nat)
    requires Reached(s) && k < |s.ready| && s.ready[k] == x && x in s.tasks && s.tasks[x].state.Exiting?
    requires x !in s.exiting
    ensures var r := After(s);
            x in r.exiting
            || (x in r.tasks && r.tasks[x].state.Exiting? && exists j :: 0 <= j < k && j < |r.ready| && r.ready[j] == x)
  {
    hide Candidates, Drained, Pick, FirstRunning, Reached;
    var all, tasks := Candidates(s), Drained(s.tasks, s.exiting);
    CandidateAt(s, k);
    assert x in tasks && tasks[x].state.Exiting?;
    var f := FirstRunning(tasks, all);
    if f < k {
      assert After(s).ready[k - f - 1] == x;
    } else {
      assert f > k;
      assert all[..f][k] == x;
      assert x in Pick(tasks, all[..f], {Exiting});
    }
  }

  lemma OtherStepsKeepLeaving(s: Sched, step: Step, x: nat, n: nat)
    requires Reached(s) && !step.Schedule? && Leaving(s, x, n)
    ensures Leaving(Next(s, step), x, n)
  {
    var r := Next(s, step);
    if x !in s.reclaimed && !(n >= 1 && x in s.exiting) {
      var k :| 0 <= k <= n - 2 && k < |s.ready| && s.ready[k] == x;
      PlaceKept(s, step, k);
      assert r.tasks[x].state.Exiting?;
    }
  }

  lemma {:induction false} LeavingIsReclaimed(s: Sched, steps: seq<Step>, x: nat, n: nat)
    requires Reached(s) && Leaving(s, x, n) && Schedules(steps) >= n
    ensures x in Exec(s, steps).reclaimed
    decreases |steps|
  {
    if steps == [] {
    } else {
      hide Inv, WaitOrder, Next, After;
      NextIsAfter(s);
      NextKeeps(s, steps[0]);
      if !steps[0].Schedule? {
        OtherStepsKeepLeaving(s, steps[0], x, n);
        LeavingIsReclaimed(Next(s, steps[0]), steps[1..], x, n);
      } else {
        if n >= 1 {
          ScheduleMovesOn(s, x, n);
        }
        LeavingIsReclaimed(Next(s, steps[0]), steps[1..], x, if n >= 1 then n - 1 else 0);
      }
    }
  }

  function Position(s: seq<nat>, x: nat): (k: nat)
    requires x in s
    ensures k < |s| && s[k] == x
  {
    if s[0] == x then 0 else 1 + Position(s[1..], x)
  }

  /**
   How long the ready list is when schedule is called next; tasks created until then queue up in front of the current
   one.
   */
  ghost function ReadyAtCall(s: Sched, steps: seq<Step>): nat
    requires Reached(s)
    decreases |steps|
  {
    if steps == [] || steps[0].Schedule? then |s.ready|
    else
      NextKeeps(s, steps[0]);
      ReadyAtCall(Next(s, steps[0]), steps[1..])
  }

  predicate IsExiting(s: Sched, x: nat) {
    x in s.tasks && s.tasks[x].state.Exiting?
  }

  /** Within how many calls of schedule the exiting task `x` is reclaimed, by where it is now. */
  ghost function CallsLeft(s: Sched, steps: seq<Step>, x: nat): nat
    requires Reached(s)
  {
    if x in s.exiting then 1
    else if x in s.ready then Position(s.ready, x) + 2
    else ReadyAtCall(s, steps) + 2
  }

  /** An exiting task is on the exit list, in the ready list, or still current. */
  lemma ExitingPlace(s: Sched, x: nat)
    requires Reached(s) && IsExiting(s, x)
    ensures x in s.exiting || x in s.ready || CurrentTask(s) == [x]
  {
    KnownLive(s, x);
  }

  /** The first call of schedule after an exit puts the task behind those that were ready, or on the exit list. */
  lemma CurrentMovesOn(s: Sched, x: nat)
    requires Reached(s) && IsExiting(s, x) && CurrentTask(s) == [x]
    ensures Leaving(After(s), x, |s.ready| + 1)
  {
    hide Candidates, Drained, Pick, FirstRunning, Inv, WaitOrder, NoneExits;
    var all, tasks, k := Candidates(s), Drained(s.tasks, s.exiting), |s.ready|;
    assert k < |all| && all[k] == x by {
      CurrentCandidate(s, x);
    }
    assert x !in s.exiting by {
      assert x in Line(s);
      Apart(s, x);
    }
    assert x in tasks && tasks[x].state.Exiting?;
    var f := FirstRunning(tasks, all);
    if f < k {
      assert After(s).ready[k - f - 1] == x;
    } else {
      assert f > k;
      assert all[..f][k] == x;
      assert x in Pick(tasks, all[..f], {Exiting});
    }
  }

  lemma CurrentCandidate(s: Sched, x: nat)
    requires CurrentTask(s) == [x]
    ensures |s.ready| < |Candidates(s)| && Candidates(s)[|s.ready|] == x
  {
  }

  /** Until the next call of schedule an exiting task stays exiting and current. */
  lemma CurrentStays(s: Sched, step: Step, x: nat)
    requires Reached(s) && !step.Schedule? && IsExiting(s, x) && CurrentTask(s) == [x]
    ensures IsExiting(Next(s, step), x) && CurrentTask(Next(s, step)) == [x]
  {
  }

  lemma {:induction false} CurrentIsReclaimed(s: Sched, steps: seq<Step>, x: nat)
    requires Reached(s) && IsExiting(s, x) && CurrentTask(s) == [x] && Schedules(steps) >= ReadyAtCall(s, steps) + 2
    ensures x in Exec(s, steps).reclaimed
    decreases |steps|
  {
    hide Inv, WaitOrder, NoneExits, Next, After, IsExiting, Leaving;
    NextIsAfter(s);
    NextKeeps(s, steps[0]);
    var r := Next(s, steps[0]);
    if steps[0].Schedule? {
      CurrentMovesOn(s, x);
      LeavingIsReclaimed(r, steps[1..], x, |s.ready| + 1);
    } else {
      CurrentStays(s, steps[0], x);
      CurrentIsReclaimed(r, steps[1..], x);
    }
  }

  /**
   Every exiting task is reclaimed, whatever the others do: within one call of schedule from the exit list, within
   k + 2 calls from place `k` of the ready list, and within n + 2 calls while it is still current, where n tasks are
   ready at the next call.
   */
  lemma BoundedReclaim(s: Sched, steps: seq<Step>, x: nat)
    requires Reached(s) && IsExiting(s, x) && Schedules(steps) >= CallsLeft(s, steps, x)
    ensures x in Exec(s, steps).reclaimed
  {
    hide Inv, WaitOrder, NoneExits, Next, After;
    ExitingPlace(s, x);
    if x in s.exiting || x in s.ready {
      LeavingIsReclaimed(s, steps, x, CallsLeft(s, steps, x));
    } else {
      CurrentIsReclaimed(s, steps, x);
    }
  }

  /** A task that exits is reclaimed within two calls more than tasks are ready at the next call. */
  lemma ExitIsReclaimed(s: Sched, steps: seq<Step>)
    requires Reached(s) && Enabled(s, ExitCurrent)
    ensures Reached(Next(s, ExitCurrent))
    ensures var r := Next(s, ExitCurrent);
            Schedules(steps) >= ReadyAtCall(r, steps) + 2 ==> s.current.value in Exec(r, steps).reclaimed
  {
    NextKeeps(s, ExitCurrent);
    var r, x := Next(s, ExitCurrent), s.current.value;
    if Schedules(steps) >= ReadyAtCall(r, steps) + 2 {
      KnownLive(s, x);
      assert IsExiting(r, x) && CurrentTask(r) == [x];
      CurrentIsReclaimed(r, steps, x);
    }
  }
}
