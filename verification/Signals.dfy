/**
 Signals of kernel/task_signal.c: raising, overriding, dispatching at the return to user space, and the
 return from a user handler.  Saved CPU frames and stacks are left out; a dispatch reports what it does.
 */
module Signals {
  import opened TaskState

  const SIG_MAX: nat := 28

  datatype Action = ActExit | ActIgnore | ActStop | ActContinue | ActUser

  datatype Entry = Entry(valid: bool, signaled: bool, overridable: bool, action: Action, userEntry: nat)

  datatype Signaling = Signaling(entries: seq<Entry>, pending: bool, scheduled: bool, task: Task)

  /** What a dispatch does; Fault stands for a failed kernel assertion. */
  datatype Outcome = Nothing | Ignored(sig: nat) | Exited(sig: nat) | Handled(sig: nat, handler: nat) | Fault

  datatype Status = Ok | NotSupported | InvalidArg

  // ---------------------------------------------------------------- the signal table

  const EXITS: set<nat> := {1, 2, 3, 4, 8, 9, 11, 12, 13, 15}
  const IGNORES: set<nat> := {14, 16, 17}
  const STOPS: set<nat> := {23, 24, 26, 27}
  const CONTINUES: set<nat> := {25}
  const OVERRIDABLES: set<nat> := {2, 13, 14, 16, 17}

  /** task_signal_init */
  function InitialEntry(sig: nat): Entry {
    Entry(sig in EXITS + IGNORES + STOPS + CONTINUES, false, sig in OVERRIDABLES,
          if sig in IGNORES then ActIgnore else if sig in STOPS then ActStop
          else if sig in CONTINUES then ActContinue else ActExit, 0)
  }

  function Initial(task: Task): Signaling {
    Signaling(seq(SIG_MAX, i requires 0 <= i => InitialEntry(i)), false, false, task)
  }

  predicate Raised(e: Entry) {
    e.valid && e.signaled
  }

  /** The first raised signal from `i` on, or SIG_MAX. */
  function FirstRaised(entries: seq<Entry>, i: nat): (r: nat)
    requires i <= |entries| == SIG_MAX
    ensures i <= r <= SIG_MAX && (r < SIG_MAX ==> Raised(entries[r])) && forall j :: i <= j < r ==> !Raised(entries[j])
    decreases SIG_MAX - i
  {
    if i == SIG_MAX || Raised(entries[i]) then i else FirstRaised(entries, i + 1)
  }

  /** Entries that can be stopped or continued by are never raised, and a raised entry is valid. */
  predicate EntryOk(e: Entry) {
    && (e.signaled ==> e.valid && (e.action.ActExit? || e.action.ActIgnore? || e.action.ActUser?))
    && (e.overridable ==> !e.action.ActStop? && !e.action.ActContinue?)
  }

  ghost predicate Inv(s: Signaling) {
    && |s.entries| == SIG_MAX
    && (forall i :: 0 <= i < SIG_MAX ==> EntryOk(s.entries[i]))
    && !s.entries[0].signaled
    && (s.pending <==> exists i :: 0 <= i < SIG_MAX && s.entries[i].signaled)
    && Sound(s.task)
  }

  // ---------------------------------------------------------------- operations on values

  function SignalTask(s: Signaling, sig: nat): (Signaling, Status)
    requires |s.entries| == SIG_MAX && 0 < sig < SIG_MAX && Sound(s.task) && !s.task.state.Exiting?
  {
    var e := s.entries[sig];
    if !e.valid then (s, NotSupported)
    else if e.action.ActStop? then (s.(task := Stop(s.task)), Ok)
    else if e.action.ActContinue? then (s.(task := Continue(s.task)), Ok)
    else (s.(entries := s.entries[sig := e.(signaled := true)], pending := true, task := WakeUp(s.task)), Ok)
  }

  function Override(s: Signaling, sig: int, handler: nat): (Signaling, Status)
    requires |s.entries| == SIG_MAX
  {
    if sig <= 0 || sig >= SIG_MAX then (s, InvalidArg)
    else if !s.entries[sig].valid || !s.entries[sig].overridable then (s, NotSupported)
    else (s.(entries := s.entries[sig := s.entries[sig].(action := ActUser, userEntry := handler)]), Ok)
  }

  /** The states that a task can be in on its way back to user space. */
  predicate OnCpu(t: Task) {
    t.state.Running? || t.state.Uninterruptible?
  }

  /** The action of the signal just taken out of the table. */
  function Act(s: Signaling, sig: nat): (Signaling, Outcome)
    requires sig < |s.entries|
  {
    var e := s.entries[sig];
    match e.action
    case ActIgnore => (s, Ignored(sig))
    case ActExit =>
      if Allowed(s.task.state, Exiting) then (s.(task := Transit(s.task, Exiting)), Exited(sig)) else (s, Fault)
    case ActUser => if e.userEntry == 0 then (s, Fault) else (s.(scheduled := true), Handled(sig, e.userEntry))
    case _ => (s, Fault)
  }

  /** task_process_signal for a task on its way back to user space. */
  function Dispatch(s: Signaling): (Signaling, Outcome)
    requires |s.entries| == SIG_MAX
  {
    if !OnCpu(s.task) then (s, Fault)
    else if s.scheduled || !s.pending then (s, Nothing)
    else
      var sig := FirstRaised(s.entries, 1);
      if sig == SIG_MAX then (s.(pending := false), Nothing)
      else
        var left := s.entries[sig := s.entries[sig].(signaled := false)];
        Act(s.(entries := left, pending := FirstRaised(left, sig + 1) < SIG_MAX), sig)
  }

  function HandlerReturn(s: Signaling): Signaling
    requires s.scheduled
  {
    s.(scheduled := false)
  }

  // ---------------------------------------------------------------- what they keep

  lemma InitialInv(task: Task)
    requires Sound(task)
    ensures Inv(Initial(task))
  {
  }

  lemma SignalKeepsInv(s: Signaling, sig: nat)
    requires Inv(s) && 0 < sig < SIG_MAX && !s.task.state.Exiting?
    ensures Inv(SignalTask(s, sig).0)
  {
    var r := SignalTask(s, sig).0;
    if r.pending && !s.pending {
      assert r.entries[sig].signaled;
    }
    assert s.pending ==> exists i :: 0 <= i < SIG_MAX && r.entries[i].signaled by {
      if s.pending {
        var i :| 0 <= i < SIG_MAX && s.entries[i].signaled;
        assert r.entries[i].signaled;
      }
    }
  }

  lemma OverrideKeepsInv(s: Signaling, sig: int, handler: nat)
    requires Inv(s)
    ensures Inv(Override(s, sig, handler).0)
  {
    var r := Override(s, sig, handler).0;
    assert forall i :: 0 <= i < SIG_MAX ==> r.entries[i].signaled == s.entries[i].signaled;
    if s.pending {
      var i :| 0 <= i < SIG_MAX && s.entries[i].signaled;
      assert r.entries[i].signaled;
    }
  }

  /** In a table in order, the raised entries are the signaled ones. */
  lemma SignaledIsRaised(s: Signaling)
    requires Inv(s)
    ensures forall j {:trigger Raised(s.entries[j])} :: 0 <= j < SIG_MAX ==>
              (s.entries[j].signaled <==> Raised(s.entries[j]))
  {
    assert forall j :: 0 <= j < SIG_MAX ==> EntryOk(s.entries[j]);
  }

  lemma LowestRaised(s: Signaling)
    requires Inv(s) && s.pending
    ensures var sig := FirstRaised(s.entries, 1);
            0 < sig < SIG_MAX && s.entries[sig].signaled && (forall j :: 0 <= j < sig ==> !s.entries[j].signaled)
  {
    SignaledIsRaised(s);
    var sig := FirstRaised(s.entries, 1);
    var i :| 0 <= i < SIG_MAX && s.entries[i].signaled;
    assert Raised(s.entries[i]);
    forall j | 0 <= j < sig
      ensures !s.entries[j].signaled
    {
      assert j > 0 ==> !Raised(s.entries[j]);
    }
  }

  lemma NextRaised(s: Signaling, sig: nat)
    requires Inv(s) && sig < SIG_MAX && forall j :: 0 <= j < sig ==> !s.entries[j].signaled
    ensures FirstRaised(s.entries[sig := s.entries[sig].(signaled := false)], sig + 1) < SIG_MAX <==>
            exists j :: 0 <= j < SIG_MAX && j != sig && s.entries[j].signaled
  {
    SignaledIsRaised(s);
    var left := s.entries[sig := s.entries[sig].(signaled := false)];
    var next := FirstRaised(left, sig + 1);
    if next < SIG_MAX {
      assert s.entries[next].signaled;
    } else {
      forall j | 0 <= j < SIG_MAX && j != sig
        ensures !s.entries[j].signaled
      {
        assert j > sig ==> left[j] == s.entries[j] && !Raised(left[j]);
      }
    }
  }

  /** A dispatch takes the lowest raised signal, and only that one. */
  lemma DispatchTakesLowest(s: Signaling)
    requires Inv(s) && s.pending && !s.scheduled
    ensures var sig := FirstRaised(s.entries, 1);
            && 0 < sig < SIG_MAX && s.entries[sig].signaled && (forall j :: 0 <= j < sig ==> !s.entries[j].signaled)
            && (OnCpu(s.task) ==> Dispatch(s).0.entries == s.entries[sig := s.entries[sig].(signaled := false)])
            && (OnCpu(s.task) ==>
                  (Dispatch(s).0.pending <==> exists j :: 0 <= j < SIG_MAX && j != sig && s.entries[j].signaled))
  {
    hide FirstRaised, EntryOk;
    LowestRaised(s);
    NextRaised(s, FirstRaised(s.entries, 1));
  }

  lemma DispatchKeepsInv(s: Signaling)
    requires Inv(s)
    ensures Inv(Dispatch(s).0)
  {
    if s.pending && !s.scheduled && OnCpu(s.task) {
      DispatchTakesLowest(s);
      var r, sig := Dispatch(s).0, FirstRaised(s.entries, 1);
      assert EntryOk(s.entries[sig]);
      forall j | 0 <= j < SIG_MAX && j != sig
        ensures r.entries[j].signaled == s.entries[j].signaled
      {
      }
    }
  }

  /**
   The assertions in a dispatch hold exactly unless the task is neither running nor stopped, or the lowest raised
   signal exits a task that is not running
   (the transition table has no way from stopped to exiting) or has a null handler.
   */
  lemma DispatchFaultsIff(s: Signaling)
    requires Inv(s)
    ensures Dispatch(s).1 == Fault <==>
              !OnCpu(s.task) || (s.pending && !s.scheduled && MustFault(s, FirstRaised(s.entries, 1)))
  {
    if s.pending && !s.scheduled {
      DispatchTakesLowest(s);
      assert EntryOk(s.entries[FirstRaised(s.entries, 1)]);
    }
  }

  /**
   For a running task with something pending and no handler active, a dispatch does what the action of the lowest
   raised signal says, to that signal, and leaves the rest of the task alone.
   */
  lemma DispatchActs(s: Signaling)
    requires Inv(s) && s.pending && !s.scheduled && s.task.state.Running?
    ensures exists sig :: 0 < sig < SIG_MAX && s.entries[sig].signaled && ActsOn(s, sig, Dispatch(s).0, Dispatch(s).1)
                          && forall j :: 0 <= j < sig ==> !s.entries[j].signaled
  {
    hide FirstRaised;
    LowestRaised(s);
    var sig := FirstRaised(s.entries, 1);
    assert EntryOk(s.entries[sig]);
    assert ActsOn(s, sig, Dispatch(s).0, Dispatch(s).1);
  }

  predicate ActsOn(s: Signaling, sig: nat, r: Signaling, o: Outcome)
    requires sig < |s.entries|
  {
    var e := s.entries[sig];
    && r.task.waiters == s.task.waiters && r.task.nonStop == s.task.nonStop
    && (o.Ignored? <==> e.action.ActIgnore?) && (o.Exited? <==> e.action.ActExit?)
    && (o.Handled? <==> e.action.ActUser? && e.userEntry != 0)
    && (o.Ignored? || o.Exited? || o.Handled? ==> o.sig == sig) && (o.Handled? ==> o.handler == e.userEntry)
    && (r.task.state.Exiting? <==> o.Exited?) && (r.task.state.Running? <==> !o.Exited?)
    && (r.scheduled <==> o.Handled?)
  }

  predicate MustFault(s: Signaling, sig: nat) {
    && sig < |s.entries|
    && (|| (s.entries[sig].action.ActExit? && s.task.state.Uninterruptible?)
        || (s.entries[sig].action.ActUser? && s.entries[sig].userEntry == 0))
  }

  /** A dispatch for a task on the CPU does nothing exactly while a handler is active or no signal is pending. */
  lemma DispatchIdlesIff(s: Signaling)
    requires Inv(s)
    ensures Dispatch(s).1 == Nothing <==> OnCpu(s.task) && (s.scheduled || !s.pending)
    ensures Dispatch(s).1 == Nothing ==> Dispatch(s).0 == s
  {
    if s.pending && !s.scheduled {
      DispatchTakesLowest(s);
    }
  }

  lemma ReturnKeepsInv(s: Signaling)
    requires Inv(s) && s.scheduled
    ensures Inv(HandlerReturn(s))
  {
  }

  // ---------------------------------------------------------------- what they mean

  /**
   An invalid signal changes nothing.  An exit, ignore or user signal marks its own entry and no other, sets the flag
   and wakes the task: a sleeper runs, a stopped task stays stopped and will run.  A stop or continue signal changes
   the task alone.
   */
  lemma SignalMeans(s: Signaling, sig: nat)
    requires Inv(s) && 0 < sig < SIG_MAX && !s.task.state.Exiting?
    ensures var r, e := SignalTask(s, sig).0, s.entries[sig];
            && (SignalTask(s, sig).1 == Ok <==> e.valid) && r.scheduled == s.scheduled && |r.entries| == SIG_MAX
            && (!e.valid ==> r == s && SignalTask(s, sig).1 == NotSupported)
            && (e.valid && !e.action.ActStop? && !e.action.ActContinue? ==>
                  && r.pending && r.entries[sig] == e.(signaled := true)
                  && (forall j :: 0 <= j < SIG_MAX && j != sig ==> r.entries[j] == s.entries[j])
                  && Effective(r.task).Running?
                  && (r.task.state.Uninterruptible? <==> s.task.state.Uninterruptible?))
            && (e.action.ActStop? || e.action.ActContinue? ==> r.entries == s.entries && r.pending == s.pending)
            && (e.valid && e.action.ActStop? ==>
                  r.task.state.Uninterruptible? && Effective(r.task) == Effective(s.task))
            && (e.valid && e.action.ActContinue? ==> r.task.state == Effective(s.task))
  {
    ContinueRestores(s.task);
  }

  /**
   Taking over a signal succeeds exactly for a number in range whose entry is valid and may be overridden, and then
   changes what that entry does and nothing else.
   */
  lemma OverrideMeans(s: Signaling, sig: int, handler: nat)
    requires Inv(s)
    ensures var r, status := Override(s, sig, handler).0, Override(s, sig, handler).1;
            && (status == InvalidArg <==> !(0 < sig < SIG_MAX))
            && (status == Ok <==> 0 < sig < SIG_MAX && s.entries[sig].valid && s.entries[sig].overridable)
            && (status != Ok ==> r == s)
            && r.pending == s.pending && r.scheduled == s.scheduled && r.task == s.task && |r.entries| == SIG_MAX
            && (forall j :: 0 <= j < SIG_MAX && j != sig ==> r.entries[j] == s.entries[j])
            && (status == Ok ==> r.entries[sig].signaled == s.entries[sig].signaled)
  {
  }

  /** A handler that was set for a signal is what a dispatch enters once the signal is the lowest one raised. */
  lemma OverriddenHandlerRuns(s: Signaling, sig: nat, h: nat)
    requires Inv(s) && s.task.state.Running? && !s.scheduled && h != 0 && Override(s, sig, h).1 == Ok
    requires forall j :: 0 <= j < sig ==> !s.entries[j].signaled
    ensures 0 < sig < SIG_MAX
    ensures var r := Dispatch(SignalTask(Override(s, sig, h).0, sig).0);
            r.1 == Handled(sig, h) && r.0.scheduled && r.0.task == s.task
  {
    hide FirstRaised;
    var t := Override(s, sig, h).0;
    OverrideKeepsInv(s, sig, h);
    assert EntryOk(s.entries[sig]);
    var u := SignalTask(t, sig).0;
    SignalKeepsInv(t, sig);
    LowestIs(u, sig);
  }

  lemma LowestIs(s: Signaling, sig: nat)
    requires Inv(s) && 0 < sig < SIG_MAX && s.entries[sig].signaled
    requires forall j :: 0 <= j < sig ==> !s.entries[j].signaled
    ensures s.pending && FirstRaised(s.entries, 1) == sig
  {
    hide FirstRaised;
    LowestRaised(s);
  }

  // ---------------------------------------------------------------- runs

  datatype Step = DoSignal(sig: nat) | DoOverride(number: int, handler: nat) | DoDispatch | DoReturn

  /** A task's signals, and how many user handlers were entered and left. */
  datatype Log = Log(s: Signaling, entered: nat, left: nat)

  function Next(l: Log, step: Step): Log
    requires Inv(l.s)
  {
    match step
    case DoSignal(sig) =>
      if 0 < sig < SIG_MAX && !l.s.task.state.Exiting? then l.(s := SignalTask(l.s, sig).0) else l
    case DoOverride(sig, handler) => l.(s := Override(l.s, sig, handler).0)
    case DoDispatch =>
      var r := Dispatch(l.s);
      Log(r.0, if r.1.Handled? then l.entered + 1 else l.entered, l.left)
    case DoReturn => if l.s.scheduled then l.(s := HandlerReturn(l.s), left := l.left + 1) else l
  }

  ghost predicate LogOk(l: Log) {
    Inv(l.s) && l.entered == l.left + (if l.s.scheduled then 1 else 0)
  }

  lemma NextKeeps(l: Log, step: Step)
    requires LogOk(l)
    ensures LogOk(Next(l, step))
  {
    hide Inv, FirstRaised;
    match step
    case DoSignal(sig) => if 0 < sig < SIG_MAX && !l.s.task.state.Exiting? { SignalKeepsInv(l.s, sig); }
    case DoOverride(sig, handler) => OverrideKeepsInv(l.s, sig, handler);
    case DoDispatch => DispatchKeepsInv(l.s);
    case DoReturn => if l.s.scheduled { ReturnKeepsInv(l.s); }
  }

  ghost function Run(l: Log, steps: seq<Step>): (r: Log)
    requires LogOk(l)
    ensures LogOk(r)
    decreases |steps|
  {
    if steps == [] then l else NextKeeps(l, steps[0]); Run(Next(l, steps[0]), steps[1..])
  }

  /**
   Over every run: signal_pending is set exactly when some entry is raised, only exit, ignore and user entries are
   ever raised, and at most one user handler is active at a time.
   */
  lemma SignalRuns(task: Task, steps: seq<Step>)
    requires Sound(task)
    ensures LogOk(Log(Initial(task), 0, 0))
    ensures var l := Run(Log(Initial(task), 0, 0), steps);
            && (l.s.pending <==> exists i :: 0 <= i < SIG_MAX && l.s.entries[i].signaled)
            && (forall i :: 0 <= i < SIG_MAX && l.s.entries[i].signaled ==>
                  l.s.entries[i].action.ActExit? || l.s.entries[i].action.ActIgnore? || l.s.entries[i].action.ActUser?)
            && l.left <= l.entered <= l.left + 1
  {
    InitialInv(task);
    var l := Run(Log(Initial(task), 0, 0), steps);
    assert forall i :: 0 <= i < SIG_MAX ==> EntryOk(l.s.entries[i]);
  }

  /** No step changes which entries are valid or may be overridden, or the action of one that may not. */
  predicate SameRules(a: seq<Entry>, b: seq<Entry>) {
    && |a| == |b| == SIG_MAX
    && forall i :: 0 <= i < SIG_MAX ==>
         && a[i].valid == b[i].valid && a[i].overridable == b[i].overridable
         && (!a[i].overridable ==> a[i].action == b[i].action)
         && (b[i].action == a[i].action || b[i].action.ActUser?)
  }

  lemma NextKeepsRules(l: Log, step: Step)
    requires LogOk(l)
    ensures SameRules(l.s.entries, Next(l, step).s.entries)
  {
    hide FirstRaised;
  }

  lemma {:induction false} RunKeepsRules(l: Log, steps: seq<Step>)
    requires LogOk(l)
    ensures SameRules(l.s.entries, Run(l, steps).s.entries)
    decreases |steps|
  {
    if steps != [] {
      hide Next, LogOk;
      NextKeepsRules(l, steps[0]);
      NextKeeps(l, steps[0]);
      RunKeepsRules(Next(l, steps[0]), steps[1..]);
    }
  }

  /**
   After every run the kill signal, 9, still exits: raised while the task runs outside a handler and no lower signal is
   pending, it is what the next dispatch takes, whatever was overridden.
   */
  lemma KillAlwaysExits(task: Task, steps: seq<Step>)
    requires Sound(task)
    ensures LogOk(Log(Initial(task), 0, 0))
    ensures var s := Run(Log(Initial(task), 0, 0), steps).s;
            s.task.state.Running? && !s.scheduled && (forall j :: 0 <= j < 9 ==> !s.entries[j].signaled) ==>
              var r := Dispatch(SignalTask(s, 9).0);
              r.1 == Exited(9) && r.0.task.state.Exiting?
  {
    hide FirstRaised, Run;
    InitialInv(task);
    var l := Log(Initial(task), 0, 0);
    RunKeepsRules(l, steps);
    var s := Run(l, steps).s;
    assert l.s.entries[9] == InitialEntry(9);
    assert s.entries[9].valid && s.entries[9].action.ActExit?;
    if s.task.state.Running? && !s.scheduled && (forall j :: 0 <= j < 9 ==> !s.entries[j].signaled) {
      SignalKeepsInv(s, 9);
      LowestIs(SignalTask(s, 9).0, 9);
    }
  }

  /** A running task that takes over signal 2 without a handler and then gets it: the dispatch faults. */
  lemma NullHandlerFaults(task: Task)
    requires Sound(task) && task.state.Running?
    ensures LogOk(Log(Initial(task), 0, 0))
    ensures Dispatch(Run(Log(Initial(task), 0, 0), [DoOverride(2, 0), DoSignal(2)]).s).1 == Fault
  {
    hide FirstRaised, Run;
    InitialInv(task);
    var l := Log(Initial(task), 0, 0);
    RunTwo(l, DoOverride(2, 0), DoSignal(2));
    var s := Next(Next(l, DoOverride(2, 0)), DoSignal(2)).s;
    assert s.entries[2].action.ActUser? && s.entries[2].signaled && s.entries[2].userEntry == 0;
    OnlyRaised(s, 2);
  }

  /** A running task that stops itself and then gets signal 2 before it leaves the kernel: the dispatch faults. */
  lemma StoppedExitFaults(task: Task)
    requires Sound(task) && task.state.Running?
    ensures LogOk(Log(Initial(task), 0, 0))
    ensures Dispatch(Run(Log(Initial(task), 0, 0), [DoSignal(23), DoSignal(2)]).s).1 == Fault
  {
    hide FirstRaised, Run;
    InitialInv(task);
    var l := Log(Initial(task), 0, 0);
    RunTwo(l, DoSignal(23), DoSignal(2));
    var s := Next(Next(l, DoSignal(23)), DoSignal(2)).s;
    assert s.entries[2].action.ActExit? && s.entries[2].signaled && s.task.state.Uninterruptible?;
    OnlyRaised(s, 2);
  }

  lemma RunTwo(l: Log, a: Step, b: Step)
    requires LogOk(l)
    ensures LogOk(Next(l, a)) && Run(l, [a, b]) == Next(Next(l, a), b) && Inv(Next(Next(l, a), b).s)
  {
    hide Next;
    NextKeeps(l, a);
    NextKeeps(Next(l, a), b);
    assert [a, b][1..] == [b] && [b][1..] == [];
    assert Run(Next(l, a), [b]) == Run(Next(Next(l, a), b), []);
  }

  /** With a single entry raised, a dispatch acts on it. */
  lemma OnlyRaised(s: Signaling, sig: nat)
    requires Inv(s) && !s.scheduled && 0 < sig < SIG_MAX && s.entries[sig].signaled
    requires forall j :: 0 <= j < SIG_MAX && j != sig ==> !s.entries[j].signaled
    ensures s.pending && FirstRaised(s.entries, 1) == sig
  {
    LowestRaised(s);
  }

  // ---------------------------------------------------------------- draining

  /** No dispatch faults: the task runs and every user entry has a handler. */
  ghost predicate Healthy(s: Signaling) {
    && Inv(s) && s.task.state.Running?
    && (forall i :: 0 <= i < SIG_MAX ==> (s.entries[i].action.ActUser? ==> s.entries[i].userEntry != 0))
  }

  /** The state after a dispatch and, if it entered a handler, the return from it. */
  function Handle(s: Signaling): Signaling
    requires |s.entries| == SIG_MAX
  {
    Dispatch(s).0.(scheduled := false)
  }

  lemma HandleAdvances(s: Signaling)
    requires Healthy(s) && s.pending && !s.scheduled
    ensures var sig, r := FirstRaised(s.entries, 1), Handle(s);
            && 0 < sig < SIG_MAX && (r.task.state.Exiting? <==> s.entries[sig].action.ActExit?)
            && r.entries == s.entries[sig := s.entries[sig].(signaled := false)]
            && !r.scheduled && (!r.task.state.Exiting? ==> Healthy(r)) && sig < FirstRaised(r.entries, 1)
  {
    hide FirstRaised;
    DispatchTakesLowest(s);
    DispatchKeepsInv(s);
    var sig, r := FirstRaised(s.entries, 1), Handle(s);
    assert EntryOk(s.entries[sig]);
    assert forall j :: 0 <= j <= sig ==> !r.entries[j].signaled;
    var next := FirstRaised(r.entries, 1);
    assert next < SIG_MAX ==> Raised(r.entries[next]);
  }

  /** The signals delivered by dispatching until nothing is pending or the task exits. */
  ghost function Drain(s: Signaling): seq<nat>
    requires Healthy(s) && !s.scheduled
    decreases SIG_MAX - FirstRaised(s.entries, 1)
  {
    if !s.pending then []
    else
      HandleAdvances(s);
      [FirstRaised(s.entries, 1)] + (if Handle(s).task.state.Exiting? then [] else Drain(Handle(s)))
  }

  /** The raised signals from `i` on, lowest first, up to the first one that exits. */
  function Ascending(entries: seq<Entry>, i: nat): seq<nat>
    requires i <= |entries| == SIG_MAX
    decreases SIG_MAX - i
  {
    if i == SIG_MAX then []
    else if !Raised(entries[i]) then Ascending(entries, i + 1)
    else if entries[i].action.ActExit? then [i]
    else [i] + Ascending(entries, i + 1)
  }

  lemma {:induction false} AscendingFrame(a: seq<Entry>, b: seq<Entry>, i: nat)
    requires i <= |a| == |b| == SIG_MAX && a[i..] == b[i..]
    ensures Ascending(a, i) == Ascending(b, i)
    decreases SIG_MAX - i
  {
    if i < SIG_MAX {
      assert a[i] == a[i..][0] == b[i..][0] == b[i];
      assert a[i + 1..] == a[i..][1..] && b[i + 1..] == b[i..][1..];
      AscendingFrame(a, b, i + 1);
    }
  }

  lemma {:induction false} DrainFrom(s: Signaling, i: nat)
    requires Healthy(s) && !s.scheduled && 0 < i <= SIG_MAX && forall j :: 0 <= j < i ==> !s.entries[j].signaled
    ensures Drain(s) == Ascending(s.entries, i)
    decreases SIG_MAX - i
  {
    hide Handle, EntryOk, FirstRaised;
    SignaledIsRaised(s);
    if i == SIG_MAX {
    } else if !s.entries[i].signaled {
      assert !Raised(s.entries[i]);
      DrainFrom(s, i + 1);
    } else {
      assert Raised(s.entries[i]);
      LowestRaised(s);
      var sig := FirstRaised(s.entries, 1);
      assert sig == i by {
        assert s.entries[sig].signaled && s.entries[i].signaled;
      }
      HandleAdvances(s);
      var r := Handle(s);
      if !r.task.state.Exiting? {
        DrainFrom(r, i + 1);
        AscendingFrame(r.entries, s.entries, i + 1);
      }
    }
  }

  /** Pending signals drain lowest number first, each once, until one of them exits the task. */
  lemma DrainsInOrder(s: Signaling)
    requires Healthy(s) && !s.scheduled
    ensures Drain(s) == Ascending(s.entries, 1)
  {
    DrainFrom(s, 1);
  }

  lemma {:induction false} AscendingHas(entries: seq<Entry>, i: nat, j: nat)
    requires i <= j < |entries| == SIG_MAX && Raised(entries[j])
    ensures || j in Ascending(entries, i)
            || exists k :: i <= k < j && k in Ascending(entries, i) && entries[k].action.ActExit?
    decreases SIG_MAX - i
  {
    if i < j && !(Raised(entries[i]) && entries[i].action.ActExit?) {
      AscendingHas(entries, i + 1, j);
    }
  }

  /**
   A valid exit, ignore or user signal raised for a running task is delivered when its signals are drained, unless a
   lower one exits the task before.
   */
  lemma RaisedIsDelivered(s: Signaling, sig: nat)
    requires Healthy(s) && !s.scheduled && 0 < sig < SIG_MAX
    requires s.entries[sig].valid && !s.entries[sig].action.ActStop? && !s.entries[sig].action.ActContinue?
    ensures var r := SignalTask(s, sig).0;
            && Healthy(r)
            && (sig in Drain(r) || exists k :: 0 < k < sig && k in Drain(r) && s.entries[k].action.ActExit?)
  {
    hide Drain, Ascending, EntryOk;
    SignalMeans(s, sig);
    SignalKeepsInv(s, sig);
    var r := SignalTask(s, sig).0;
    DrainsInOrder(r);
    AscendingHas(r.entries, 1, sig);
  }
}
