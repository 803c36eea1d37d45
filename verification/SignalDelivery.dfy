/**
 The code of kernel/task_signal.c on a task's own signal table, proved against `Signals`.
 */
module SignalDelivery {
  import opened TaskState
  import opened Signals

  class TaskSignals {
    const entries: array<Entry>
    var pending: bool
    var scheduled: bool
    var task: Task

    ghost function View(): Signaling
      reads this, entries
    {
      Signaling(entries[..], pending, scheduled, task)
    }

    ghost predicate Valid()
      reads this, entries
    {
      Inv(View())
    }

    /** task_signal_init */
    constructor (task: Task)
      requires Sound(task)
      ensures Valid() && View() == Initial(task) && fresh(entries)
    {
      entries := new Entry[SIG_MAX](i requires 0 <= i => InitialEntry(i));
      pending, scheduled, this.task := false, false, task;
      new;
      InitialInv(task);
      assert View() == Initial(task);
    }

    /** signal_task */
    method SignalTask(sig: nat) returns (status: Status)
      requires Valid() && 0 < sig < SIG_MAX && !task.state.Exiting?
      modifies this, entries
      ensures Valid() && (View(), status) == Signals.SignalTask(old(View()), sig)
    {
      SignalKeepsInv(View(), sig);
      if !entries[sig].valid {
        return NotSupported;
      }
      match entries[sig].action {
        case ActStop =>
          task := Stop(task);
          return Ok;
        case ActContinue =>
          task := Continue(task);
          return Ok;
        case _ =>
      }
      entries[sig] := entries[sig].(signaled := true);
      pending := true;
      task := WakeUp(task);
      status := Ok;
    }

    /** call_sys_signal */
    method CallSysSignal(sig: int, handler: nat) returns (status: Status)
      requires Valid()
      modifies entries
      ensures Valid() && (View(), status) == Override(old(View()), sig, handler)
    {
      OverrideKeepsInv(View(), sig, handler);
      if sig <= 0 || sig >= SIG_MAX {
        return InvalidArg;
      }
      if !entries[sig].valid || !entries[sig].overridable {
        return NotSupported;
      }
      entries[sig] := entries[sig].(action := ActUser, userEntry := handler);
      status := Ok;
    }

    /** The loops of task_process_signal over the signal table. */
    method Search(from: nat) returns (idx: nat)
      requires from <= entries.Length == SIG_MAX
      ensures idx == FirstRaised(entries[..], from)
    {
      idx := from;
      while idx < SIG_MAX
        invariant from <= idx <= SIG_MAX && FirstRaised(entries[..], idx) == FirstRaised(entries[..], from)
      {
        if entries[idx].valid && entries[idx].signaled {
          return;
        }
        idx := idx + 1;
      }
    }

    /** task_process_signal for the current task on its way back to user space. */
    method TaskProcessSignal() returns (outcome: Outcome)
      requires Valid()
      modifies this, entries
      ensures Valid() && (View(), outcome) == Dispatch(old(View()))
    {
      DispatchKeepsInv(View());
      outcome := Deliver();
    }

    /** The body of task_process_signal, whatever the table holds. */
    method Deliver() returns (outcome: Outcome)
      requires entries.Length == SIG_MAX
      modifies this, entries
      ensures (View(), outcome) == Dispatch(old(View()))
    {
      hide FirstRaised, Sound;
      if !task.state.Running? && !task.state.Uninterruptible? {
        return Fault;
      }
      if scheduled || !pending {
        return Nothing;
      }
      var signal := Search(1);
      if signal == SIG_MAX {
        pending := false;
        return Nothing;
      }
      ghost var left := entries[..][signal := entries[signal].(signaled := false)];
      entries[signal] := entries[signal].(signaled := false);
      assert entries[..] == left;
      var idx := Search(signal + 1);
      pending := idx < SIG_MAX;
      match entries[signal].action {
        case ActIgnore =>
          outcome := Ignored(signal);
        case ActExit =>
          if Allowed(task.state, Exiting) {
            task := Transit(task, Exiting);
            outcome := Exited(signal);
          } else {
            outcome := Fault;
          }
        case ActUser =>
          if entries[signal].userEntry == 0 {
            outcome := Fault;
          } else {
            scheduled := true;
            outcome := Handled(signal, entries[signal].userEntry);
          }
        case _ =>
          outcome := Fault;
      }
    }

    /** return_from_pl3_signal_context */
    method ReturnFromHandler()
      requires Valid() && scheduled
      modifies this`scheduled
      ensures Valid() && View() == HandlerReturn(old(View()))
      ensures OnCpu(task) ==> old(Dispatch(View())) == (old(View()), Nothing)
      ensures OnCpu(task) ==> (Dispatch(View()).1 == Nothing <==> !pending)
    {
      hide FirstRaised;
      scheduled := false;
      ReturnKeepsInv(old(View()));
      DispatchIdlesIff(View());
    }
  }
}
