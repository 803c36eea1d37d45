/**
 Task states of kernel/task.c and the part of kernel/task_signal.c that stops and continues a task.
 */
module TaskState {

  datatype State = Zombie | Running | Interruptible | Uninterruptible | Exiting

  /** `waiters`: the tasks that wait for this one to terminate, by task id. */
  datatype Task = Task(state: State, nonStop: State, waiters: seq<nat>)

  /** The transition table. */
  predicate Allowed(from: State, to: State) {
    || from == to
    || (from.Running? && (to.Interruptible? || to.Uninterruptible? || to.Exiting?))
    || (from.Interruptible? && (to.Running? || to.Uninterruptible?))
    || (from.Uninterruptible? && (to.Running? || to.Interruptible?))
  }

  /** A stopped task remembers a state that it can go back to; nothing is a zombie. */
  predicate Sound(t: Task) {
    !t.state.Zombie? && (t.state.Uninterruptible? ==> t.nonStop.Running? || t.nonStop.Interruptible?)
  }

  /** transit_state */
  function Transit(t: Task, to: State): Task
    requires Allowed(t.state, to)
  {
    t.(state := to)
  }

  /** A waiting task runs again; a stopped task only notes that it was woken. */
  function Woken(t: Task): Task {
    if t.state.Interruptible? then t.(state := Running)
    else if t.state.Uninterruptible? then t.(nonStop := Running)
    else t
  }

  /** raw_task_wake_up: its default branch is not reached. */
  function WakeUp(t: Task): (r: Task)
    requires Sound(t) && !t.state.Exiting?
    ensures r == Woken(t)
  {
    match t.state
    case Interruptible => Transit(t, Running)
    case Uninterruptible => t.(nonStop := Running)
    case Running => t
  }

  /** SIG_ACTION_STOP */
  function Stop(t: Task): Task
    requires Sound(t)
  {
    if t.state.Interruptible? || t.state.Running? then Transit(t.(nonStop := t.state), Uninterruptible) else t
  }

  /** SIG_ACTION_CONTINUE */
  function Continue(t: Task): Task
    requires Sound(t)
  {
    if t.state.Uninterruptible? then Transit(t, t.nonStop).(nonStop := Zombie) else t
  }

  datatype Event = Wake | StopSignal | ContinueSignal

  function React(t: Task, e: Event): (r: Task)
    requires Sound(t) && !t.state.Exiting?
    ensures Sound(r) && !r.state.Exiting?
  {
    match e
    case Wake => WakeUp(t)
    case StopSignal => Stop(t)
    case ContinueSignal => Continue(t)
  }

  function ReactAll(t: Task, es: seq<Event>): (r: Task)
    requires Sound(t) && !t.state.Exiting?
    ensures Sound(r) && !r.state.Exiting?
    decreases |es|
  {
    if es == [] then t else ReactAll(React(t, es[0]), es[1..])
  }

  /** What the task would be doing if it were not stopped. */
  function Effective(t: Task): State {
    if t.state.Uninterruptible? then t.nonStop else t.state
  }

  function OnlyWakes(es: seq<Event>): seq<Event> {
    if es == [] then [] else (if es[0].Wake? then [Wake] else []) + OnlyWakes(es[1..])
  }

  /**
   Stops and continues in any order never lose a wake-up: without them the task would be in the same effective state.
   */
  lemma {:induction false} StopsLoseNoWakeUp(t: Task, u: Task, es: seq<Event>)
    requires Sound(t) && !t.state.Exiting? && Sound(u) && !u.state.Exiting? && Effective(t) == Effective(u)
    ensures Effective(ReactAll(t, es)) == Effective(ReactAll(u, OnlyWakes(es)))
    decreases |es|
  {
    if es != [] {
      if es[0].Wake? {
        assert OnlyWakes(es)[1..] == OnlyWakes(es[1..]);
        StopsLoseNoWakeUp(React(t, Wake), React(u, Wake), es[1..]);
      } else {
        assert OnlyWakes(es) == OnlyWakes(es[1..]);
        StopsLoseNoWakeUp(React(t, es[0]), u, es[1..]);
      }
    }
  }

  lemma {:induction false} ReactLast(t: Task, es: seq<Event>, e: Event)
    requires Sound(t) && !t.state.Exiting?
    ensures ReactAll(t, es + [e]) == React(ReactAll(t, es), e)
    decreases |es|
  {
    if es == [] {
      assert [e][1..] == [];
      assert ReactAll(t, [e]) == ReactAll(React(t, e), []);
    } else {
      assert (es + [e])[1..] == es[1..] + [e];
      ReactLast(React(t, es[0]), es[1..], e);
    }
  }

  lemma {:induction false} WakesNeverStop(t: Task, es: seq<Event>)
    requires Sound(t) && !t.state.Exiting? && !t.state.Uninterruptible?
    ensures !ReactAll(t, OnlyWakes(es)).state.Uninterruptible?
    decreases |es|
  {
    if es != [] {
      if es[0].Wake? {
        assert OnlyWakes(es)[1..] == OnlyWakes(es[1..]);
        WakesNeverStop(React(t, Wake), es[1..]);
      } else {
        assert OnlyWakes(es) == OnlyWakes(es[1..]);
        WakesNeverStop(t, es[1..]);
      }
    }
  }

  /** A continue brings back the effective state; a stop hides it and keeps it. */
  lemma ContinueRestores(t: Task)
    requires Sound(t) && !t.state.Exiting?
    ensures Continue(t).state == Effective(t) && Continue(t).waiters == t.waiters
    ensures Stop(t).state.Uninterruptible? && Effective(Stop(t)) == Effective(t) && Stop(t).waiters == t.waiters
  {
  }

  /**
   Whatever happened to a task, after a continue it is in the state that the wake-ups alone would have led to; after
   a stop it is stopped.
   */
  lemma StopsLeaveNoTrace(t: Task, es: seq<Event>)
    requires Sound(t) && !t.state.Exiting? && !t.state.Uninterruptible?
    ensures ReactAll(t, es + [ContinueSignal]).state == ReactAll(t, OnlyWakes(es)).state
    ensures ReactAll(t, es + [StopSignal]).state.Uninterruptible?
  {
    ReactLast(t, es, ContinueSignal);
    ReactLast(t, es, StopSignal);
    StopsLoseNoWakeUp(t, t, es);
    WakesNeverStop(t, es);
  }

  /** A task that is woken at least once and continued last is running. */
  lemma {:induction false} WokenAndContinuedRuns(t: Task, es: seq<Event>)
    requires Sound(t) && !t.state.Exiting? && (Wake in es || Effective(t).Running?)
    ensures ReactAll(t, es + [ContinueSignal]).state.Running?
    decreases |es|
  {
    if es == [] {
      assert [ContinueSignal][1..] == [];
      assert ReactAll(t, [ContinueSignal]) == Continue(t);
    } else {
      assert (es + [ContinueSignal])[1..] == es[1..] + [ContinueSignal];
      WokenAndContinuedRuns(React(t, es[0]), es[1..]);
    }
  }
}
