/**
 The scheduler of kernel/task.c as a state machine over its queues.

 `After` says what one call of schedule does; `Next` adds everything that can happen between two
 calls.  `Scheduler` proves the code against `After`.
 */
module SchedulerSteps {
  import opened Common
  import opened TaskState

  type Tasks = map<nat, Task>

  /** `reclaimed` is history: the tasks reclaimed so far, in order. */
  datatype Sched = Sched(
    tasks: Tasks, ready: seq<nat>, blocking: seq<nat>, exiting: seq<nat>, zombies: seq<nat>,
    current: Option<nat>, idle: nat, reclaimed: seq<nat>)

  // ---------------------------------------------------------------- one call of schedule

  /** The members of `s` whose state is in `want`, in order. */
  function Pick(tasks: Tasks, s: seq<nat>, want: set<State>): (r: seq<nat>)
    ensures forall x {:trigger x in r} :: x in r <==> x in s && x in tasks && tasks[x].state in want
  {
    if s == [] then []
    else (if s[0] in tasks && tasks[s[0]].state in want then [s[0]] else []) + Pick(tasks, s[1..], want)
  }

  const UP: set<State> := {Running, Exiting}
  const ASLEEP: set<State> := {Interruptible, Uninterruptible}

  predicate Wakeable(tasks: Tasks, x: nat) {
    x in tasks && Sound(tasks[x]) && !tasks[x].state.Exiting?
  }

  ghost function Waiters(tasks: Tasks, es: seq<nat>): set<nat> {
    set e, w | e in es && e in tasks && w in tasks[e].waiters :: w
  }

  /** process_exit_task_list: all waiters of the exiting tasks `es` are woken and the tasks are gone. */
  ghost function Drained(tasks: Tasks, es: seq<nat>): (r: Tasks)
    ensures forall x :: x in r <==> x in tasks && x !in es
    ensures forall x :: x in r ==> r[x] == if x in Waiters(tasks, es) then Woken(tasks[x]) else tasks[x]
  {
    map x | x in tasks && x !in es :: if x in Waiters(tasks, es) then Woken(tasks[x]) else tasks[x]
  }

  /** Every task is sound, and whoever waits for another task is live and not exiting. */
  ghost predicate WaitersLive(tasks: Tasks) {
    && (forall x :: x in tasks ==> Sound(tasks[x]))
    && (forall x, w :: x in tasks && w in tasks[x].waiters ==> Wakeable(tasks, w))
  }

  predicate IsRunning(tasks: Tasks, x: nat) {
    x in tasks && tasks[x].state.Running?
  }

  /** How many tasks at the front of `s` are not running. */
  function FirstRunning(tasks: Tasks, s: seq<nat>): (k: nat)
    ensures k <= |s| && (k < |s| ==> IsRunning(tasks, s[k]))
    ensures forall i :: 0 <= i < k ==> !IsRunning(tasks, s[i])
  {
    if s == [] || IsRunning(tasks, s[0]) then 0 else 1 + FirstRunning(tasks, s[1..])
  }

  function CurrentTask(s: Sched): seq<nat> {
    if s.current.None? || s.current.value == s.idle then [] else [s.current.value]
  }

  /** The ready list after the current task and the tasks woken since the last call were appended. */
  function Candidates(s: Sched): seq<nat> {
    s.ready + CurrentTask(s) + Pick(s.tasks, s.blocking, UP)
  }

  /** What a call of schedule does. */
  ghost function After(s: Sched): Sched {
    var all := Candidates(s);
    var tasks := Drained(s.tasks, s.exiting);
    var k := FirstRunning(tasks, all);
    s.(tasks := tasks,
       ready := if k < |all| then all[k + 1..] else [],
       blocking := Pick(s.tasks, s.blocking, ASLEEP) + Pick(tasks, all[..k], ASLEEP),
       exiting := Pick(tasks, all[..k], {Exiting}),
       zombies := s.zombies + Pick(s.tasks, s.blocking, {Zombie}) + Pick(tasks, all[..k], {Zombie}),
       current := Some(if k < |all| then all[k] else s.idle),
       reclaimed := s.reclaimed + s.exiting)
  }

  // ---------------------------------------------------------------- invariant

  /** All tasks the scheduler knows, the idle task aside. */
  function Known(s: Sched): seq<nat> {
    s.ready + s.blocking + s.exiting + CurrentTask(s)
  }

  /**
   Every live task but the idle one is in exactly one queue or current; the exit list holds exiting tasks; there are
   no zombies.
   */
  ghost predicate Inv(s: Sched) {
    && WaitersLive(s.tasks)
    && s.idle in s.tasks && s.tasks[s.idle].state.Running?
    && multiset(Known(s)) == multiset(s.tasks.Keys - {s.idle})
    && (forall e :: e in s.exiting ==> e in s.tasks && s.tasks[e].state.Exiting?)
    && s.zombies == []
  }

  lemma PickHead(tasks: Tasks, s: seq<nat>, want: set<State>, head: seq<nat>)
    requires s != [] && head == if s[0] in tasks && tasks[s[0]].state in want then [s[0]] else []
    ensures Pick(tasks, s, want) == head + Pick(tasks, s[1..], want)
  {
  }

  ghost predicate AllIn(tasks: Tasks, s: seq<nat>, want: set<State>) {
    forall x :: x in s ==> x in tasks && tasks[x].state in want
  }

  lemma AllInParts(tasks: Tasks, s: seq<nat>, want: set<State>)
    requires s != [] && AllIn(tasks, s, want)
    ensures s[0] in tasks && tasks[s[0]].state in want && AllIn(tasks, s[1..], want)
  {
  }

  lemma {:induction false} PickSplits(tasks: Tasks, s: seq<nat>, a: set<State>, b: set<State>)
    requires a !! b && AllIn(tasks, s, a + b)
    ensures multiset(s) == multiset(Pick(tasks, s, a)) + multiset(Pick(tasks, s, b))
  {
    if s == [] {
    } else {
      hide Pick, AllIn;
      var x, rest := s[0], s[1..];
      AllInParts(tasks, s, a + b);
      PickSplits(tasks, rest, a, b);
      var inA := SplitHeads(tasks, s, a, b);
      HeadCounts(x, rest, Pick(tasks, rest, a), Pick(tasks, rest, b), inA);
      assert s == [x] + rest;
    }
  }

  lemma SplitHeads(tasks: Tasks, s: seq<nat>, a: set<State>, b: set<State>) returns (inA: bool)
    requires a !! b && s != [] && s[0] in tasks && tasks[s[0]].state in a + b
    ensures Pick(tasks, s, a) == (if inA then [s[0]] else []) + Pick(tasks, s[1..], a)
    ensures Pick(tasks, s, b) == (if inA then [] else [s[0]]) + Pick(tasks, s[1..], b)
  {
    hide Pick;
    inA := OneOfTwo(tasks[s[0]].state, a, b);
    PickHead(tasks, s, a, if inA then [s[0]] else []);
    PickHead(tasks, s, b, if inA then [] else [s[0]]);
  }

  lemma OneOfTwo(x: State, a: set<State>, b: set<State>) returns (inA: bool)
    requires a !! b && x in a + b
    ensures (x in a <==> inA) && (x in b <==> !inA)
  {
    inA := x in a;
  }

  lemma HeadCounts(x: nat, s: seq<nat>, p: seq<nat>, q: seq<nat>, inP: bool)
    requires multiset(s) == multiset(p) + multiset(q)
    ensures multiset([x] + s) == multiset((if inP then [x] else []) + p) + multiset((if inP then [] else [x]) + q)
  {
    assert [] + p == p && [] + q == q;
  }

  lemma {:induction false} PickNone(tasks: Tasks, s: seq<nat>, a: set<State>)
    requires forall x :: x in s ==> x in tasks && tasks[x].state !in a
    ensures Pick(tasks, s, a) == []
  {
    if s != [] {
      assert s[0] in s;
      PickNone(tasks, s[1..], a);
    }
  }

  lemma KnownLive(s: Sched, x: nat)
    requires Inv(s)
    ensures x in Known(s) <==> x in s.tasks && x != s.idle
  {
    assert x in Known(s) <==> x in multiset(Known(s));
    assert x in multiset(s.tasks.Keys - {s.idle}) <==> x in s.tasks.Keys - {s.idle};
  }

  lemma DrainKeepsWaiters(s: Sched)
    requires Inv(s)
    ensures WaitersLive(Drained(s.tasks, s.exiting))
    ensures forall x :: x in Drained(s.tasks, s.exiting) ==>
              Drained(s.tasks, s.exiting)[x].waiters == s.tasks[x].waiters
  {
    var t := Drained(s.tasks, s.exiting);
    forall x, w | x in t && w in t[x].waiters
      ensures Wakeable(t, w)
    {
      assert Wakeable(s.tasks, w);
    }
  }

  lemma DrainKeepsIdle(s: Sched)
    requires Inv(s)
    ensures s.idle in Drained(s.tasks, s.exiting) && Drained(s.tasks, s.exiting)[s.idle].state.Running?
    ensures s.idle !in Candidates(s) && s.idle !in s.exiting
  {
    KnownLive(s, s.idle);
  }

  lemma Without(k: set<nat>, rest: seq<nat>, es: seq<nat>, x: nat)
    requires multiset(rest) + multiset(es) == multiset(k)
    ensures multiset(rest)[x] == multiset(k - (set e | e in es))[x]
  {
    assert multiset(k)[x] == multiset(rest)[x] + multiset(es)[x];
    assert x in es <==> x in multiset(es);
  }

  /** Before the call the live tasks are the candidates, the sleepers and the exiting ones. */
  lemma CandidatesCount(s: Sched)
    requires Inv(s)
    ensures multiset(Candidates(s)) + multiset(Pick(s.tasks, s.blocking, ASLEEP)) + multiset(s.exiting) ==
            multiset(s.tasks.Keys - {s.idle})
    ensures Pick(s.tasks, s.blocking, {Zombie}) == []
    ensures forall x :: x in Candidates(s) ==> x in s.tasks && x !in s.exiting
  {
    hide Pick, WaitersLive;
    BlockingSplits(s);
    assert multiset(Known(s)) == multiset(s.ready) + multiset(s.blocking) + multiset(s.exiting)
                                 + multiset(CurrentTask(s));
    CandidatesLive(s);
  }

  lemma BlockingSplits(s: Sched)
    requires Inv(s)
    ensures Pick(s.tasks, s.blocking, {Zombie}) == []
    ensures multiset(s.blocking) ==
            multiset(Pick(s.tasks, s.blocking, UP)) + multiset(Pick(s.tasks, s.blocking, ASLEEP))
  {
    hide Pick;
    forall x | x in s.blocking
      ensures x in s.tasks && x != s.idle && s.tasks[x].state in UP + ASLEEP
    {
      KnownLive(s, x);
    }
    PickSplits(s.tasks, s.blocking, UP, ASLEEP);
    PickNone(s.tasks, s.blocking, {Zombie});
  }

  lemma CandidatesLive(s: Sched)
    requires Inv(s)
    ensures forall x :: x in Candidates(s) ==> x in s.tasks && x !in s.exiting
  {
    hide Pick, WaitersLive;
    forall x | x in Candidates(s)
      ensures x in s.tasks && x !in s.exiting
    {
      assert x in Line(s) || x in s.blocking;
      KnownLive(s, x);
      Apart(s, x);
    }
  }

  lemma PrefixCount(tasks: Tasks, all: seq<nat>)
    requires forall x :: x in all ==> x in tasks && Sound(tasks[x])
    ensures var k := FirstRunning(tasks, all);
            && multiset(all[..k]) ==
               multiset(Pick(tasks, all[..k], ASLEEP)) + multiset(Pick(tasks, all[..k], {Exiting}))
            && Pick(tasks, all[..k], {Zombie}) == []
  {
    var k := FirstRunning(tasks, all);
    forall x | x in all[..k]
      ensures x in tasks && tasks[x].state in ASLEEP + {Exiting}
    {
      var i :| 0 <= i < k && all[i] == x;
      assert !IsRunning(tasks, all[i]);
    }
    PickSplits(tasks, all[..k], ASLEEP, {Exiting});
    PickNone(tasks, all[..k], {Zombie});
  }

  lemma Regroup(all: seq<nat>, k: nat, asleep: seq<nat>, gone: seq<nat>, sleepers: seq<nat>)
    requires k <= |all| && multiset(all[..k]) == multiset(asleep) + multiset(gone)
    ensures k < |all| ==>
              multiset(all[k + 1..] + (sleepers + asleep) + gone + [all[k]]) == multiset(all) + multiset(sleepers)
    ensures k == |all| ==> multiset([] + (sleepers + asleep) + gone + []) == multiset(all) + multiset(sleepers)
  {
    if k < |all| {
      assert all == all[..k] + [all[k]] + all[k + 1..];
    } else {
      assert all == all[..k];
    }
  }

  lemma PrefixOfCandidates(s: Sched)
    requires Inv(s)
    ensures var all, tasks := Candidates(s), Drained(s.tasks, s.exiting);
            var k := FirstRunning(tasks, all);
            && multiset(all[..k]) ==
               multiset(Pick(tasks, all[..k], ASLEEP)) + multiset(Pick(tasks, all[..k], {Exiting}))
            && Pick(tasks, all[..k], {Zombie}) == []
  {
    hide Candidates, Drained, Pick, FirstRunning;
    DrainSound(s);
    CandidatesCount(s);
    PrefixCount(Drained(s.tasks, s.exiting), Candidates(s));
  }

  /** The tasks known after the call, list by list. */
  lemma AfterLists(s: Sched)
    requires s.idle !in Candidates(s)
    ensures var all, tasks := Candidates(s), Drained(s.tasks, s.exiting);
            var k := FirstRunning(tasks, all);
            var asleep, gone := Pick(tasks, all[..k], ASLEEP), Pick(tasks, all[..k], {Exiting});
            var sleepers := Pick(s.tasks, s.blocking, ASLEEP);
            Known(After(s)) == if k < |all| then all[k + 1..] + (sleepers + asleep) + gone + [all[k]]
                               else [] + (sleepers + asleep) + gone + []
  {
    hide Candidates, Drained, Pick, FirstRunning;
    var all := Candidates(s);
    var k := FirstRunning(Drained(s.tasks, s.exiting), all);
    assert k < |all| ==> all[k] in all;
  }

  lemma AfterKnows(s: Sched)
    requires Inv(s)
    ensures multiset(Known(After(s))) == multiset(Candidates(s)) + multiset(Pick(s.tasks, s.blocking, ASLEEP))
    ensures After(s).zombies == s.zombies
  {
    hide Candidates, Drained, Pick, FirstRunning, Inv, Known;
    DrainKeepsIdle(s);
    CandidatesCount(s);
    PrefixOfCandidates(s);
    AfterLists(s);
    var all, tasks := Candidates(s), Drained(s.tasks, s.exiting);
    var k := FirstRunning(tasks, all);
    var asleep, gone := Pick(tasks, all[..k], ASLEEP), Pick(tasks, all[..k], {Exiting});
    Regroup(all, k, asleep, gone, Pick(s.tasks, s.blocking, ASLEEP));
  }

  lemma DrainSound(s: Sched)
    requires Inv(s)
    ensures forall x :: x in s.tasks && x !in s.exiting ==>
              x in Drained(s.tasks, s.exiting) && Sound(Drained(s.tasks, s.exiting)[x])
  {
    DrainKeepsWaiters(s);
  }

  lemma AfterCount(s: Sched)
    requires Inv(s)
    ensures multiset(Known(After(s))) == multiset(After(s).tasks.Keys - {s.idle}) && After(s).zombies == []
  {
    hide WaitersLive, Candidates, Pick, FirstRunning, Known;
    AfterKnows(s);
    assert s.zombies == [];
    CandidatesCount(s);
    var all, tasks := Candidates(s), Drained(s.tasks, s.exiting);
    var sleepers := Pick(s.tasks, s.blocking, ASLEEP);
    assert tasks.Keys - {s.idle} == (s.tasks.Keys - {s.idle}) - (set e | e in s.exiting);
    assert multiset(all + sleepers) == multiset(all) + multiset(sleepers);
    forall x: nat
      ensures multiset(Known(After(s)))[x] == multiset(tasks.Keys - {s.idle})[x]
    {
      Without(s.tasks.Keys - {s.idle}, all + sleepers, s.exiting, x);
    }
  }

  /** Every call of schedule keeps the invariant. */
  lemma AfterKeepsInv(s: Sched)
    requires Inv(s)
    ensures Inv(After(s))
  {
    DrainKeepsWaiters(s);
    DrainKeepsIdle(s);
    AfterCount(s);
  }

  // ---------------------------------------------------------------- who is picked

  function Line(s: Sched): seq<nat> {
    s.ready + CurrentTask(s)
  }

  ghost predicate Ahead(line: seq<nat>, w: nat, e: nat) {
    exists i, j :: 0 <= i < j < |line| && line[i] == w && line[j] == e
  }

  /** `w` still sleeps until `e`, which is exiting, terminates. */
  predicate Pending(tasks: Tasks, e: nat, w: nat) {
    && e in tasks && tasks[e].state.Exiting? && w in tasks[e].waiters
    && w in tasks && Effective(tasks[w]).Interruptible?
  }

  /**
   Whoever sleeps until an exiting task terminates is on the blocking list or ahead of that task in the ready list.
   */
  ghost predicate WaitOrder(s: Sched) {
    forall e, w {:trigger Pending(s.tasks, e, w)} :: Pending(s.tasks, e, w) ==> w in s.blocking || Ahead(Line(s), w, e)
  }

  /** No task on the blocking list is exiting: a task exits while it is current. */
  ghost predicate NoneExits(s: Sched) {
    forall x :: x in s.blocking ==> x in s.tasks && !s.tasks[x].state.Exiting?
  }

  ghost predicate Reached(s: Sched) {
    && Inv(s) && WaitOrder(s) && NoneExits(s)
    && Distinct(s.reclaimed) && (forall x :: x in s.reclaimed ==> x !in s.tasks)
  }

  lemma AfterKeepsOrder(s: Sched)
    requires Inv(s) && WaitOrder(s)
    ensures WaitOrder(After(s))
  {
    var r := After(s);
    forall e, w | Pending(r.tasks, e, w)
      ensures w in r.blocking || Ahead(Line(r), w, e)
    {
      assert Pending(s.tasks, e, w) && r.tasks[w] == s.tasks[w];
      if w in s.blocking {
        assert w in Pick(s.tasks, s.blocking, ASLEEP);
      } else {
        AheadKept(s, w, e);
      }
    }
  }

  lemma AfterNoneExits(s: Sched)
    requires Inv(s)
    ensures NoneExits(After(s))
  {
    hide WaitersLive, Candidates, FirstRunning, Pick, Inv, Drained;
    forall x | x in After(s).blocking
      ensures x in After(s).tasks && !After(s).tasks[x].state.Exiting?
    {
      if x in Pick(s.tasks, s.blocking, ASLEEP) {
        Apart(s, x);
      }
    }
  }

  lemma AheadKept(s: Sched, w: nat, e: nat)
    requires Inv(s) && Ahead(Line(s), w, e) && w in s.tasks && w in After(s).tasks && After(s).tasks[w] == s.tasks[w]
    requires s.tasks[w].state in ASLEEP
    ensures w in After(s).blocking || Ahead(Line(After(s)), w, e)
  {
    var r, all, tasks := After(s), Candidates(s), Drained(s.tasks, s.exiting);
    hide Drained, Inv, Pick;
    var k := FirstRunning(tasks, all);
    var i, j :| 0 <= i < j < |Line(s)| && Line(s)[i] == w && Line(s)[j] == e;
    assert all[i] == w && all[j] == e;
    if i < k {
      assert all[..k][i] == w;
      assert w in Pick(tasks, all[..k], ASLEEP);
    } else {
      assert i != k;
      assert r.ready == all[k + 1..];
      assert Line(r)[i - k - 1] == w && Line(r)[j - k - 1] == e;
    }
  }

  lemma Apart(s: Sched, x: nat)
    requires Inv(s)
    ensures x in Line(s) ==> x !in s.blocking && x !in s.exiting
    ensures x in s.blocking ==> x !in s.exiting
  {
    assert multiset(Known(s)) == multiset(Line(s)) + multiset(s.blocking) + multiset(s.exiting);
    assert multiset(Known(s))[x] <= 1;
    assert x in Line(s) ==> x in multiset(Line(s));
    assert x in s.blocking ==> x in multiset(s.blocking);
    assert x in s.exiting ==> x in multiset(s.exiting);
  }

  /** A running task is a candidate and stays running. */
  lemma RunningIsCandidate(s: Sched, x: nat)
    requires Inv(s) && x in Known(s) && IsRunning(s.tasks, x)
    ensures x in Candidates(s) && IsRunning(Drained(s.tasks, s.exiting), x)
  {
    assert x !in s.exiting;
    assert x in s.blocking ==> x in Pick(s.tasks, s.blocking, UP);
  }

  /** A candidate that runs after the call was running before it. */
  lemma CandidateWasRunning(s: Sched, x: nat)
    requires Inv(s) && WaitOrder(s) && x in Candidates(s) && IsRunning(Drained(s.tasks, s.exiting), x)
    ensures IsRunning(s.tasks, x) && x in Known(s)
  {
    CandidatesCount(s);
    KnownLive(s, x);
    Apart(s, x);
    if x in Waiters(s.tasks, s.exiting) {
      var e :| e in s.exiting && e in s.tasks && x in s.tasks[e].waiters;
      if s.tasks[x].state.Interruptible? {
        assert Pending(s.tasks, e, x);
        Apart(s, e);
      }
    }
  }

  /** schedule picks the idle task exactly when no other task was running on entry. */
  lemma IdleIffNobodyRuns(s: Sched)
    requires Reached(s)
    ensures After(s).current == Some(s.idle) <==> forall x :: x in Known(s) ==> !IsRunning(s.tasks, x)
  {
    hide Candidates, Drained, FirstRunning, Pick;
    var all, tasks := Candidates(s), Drained(s.tasks, s.exiting);
    var k := FirstRunning(tasks, all);
    DrainKeepsIdle(s);
    if k < |all| {
      assert all[k] in all;
      CandidateWasRunning(s, all[k]);
    } else {
      forall x | x in Known(s)
        ensures !IsRunning(s.tasks, x)
      {
        if IsRunning(s.tasks, x) {
          RunningIsCandidate(s, x);
        }
      }
    }
  }
}
