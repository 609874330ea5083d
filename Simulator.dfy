/** The two tick loops of the source over the task array. The runtime fields
    of the tasks live in an array that the loops update in place; the static
    parameters are read from the task sequence. Each method is proved against
    the functions of `Dispatch`. */
module Simulator {

  import opened Options
  import opened TaskModel
  import opened Dispatch
  import opened DispatchProofs

  /** The reset loop before a run. */
  method ResetRuntime(tasks: seq<Task>, rt: array<Runtime>, policy: Policy)
    requires rt.Length == |tasks|
    modifies rt
    ensures rt[..] == Reset(tasks, old(rt[..]), policy)
  {
    for i := 0 to rt.Length
      invariant forall j :: 0 <= j < i ==> rt[j] == Reset(tasks, old(rt[..]), policy)[j]
      invariant forall j :: i <= j < rt.Length ==> rt[j] == old(rt[j])
    {
      if policy == EDF {
        rt[i] := Runtime(0, tasks[i].phase, tasks[i].phase + tasks[i].deadline);
      } else {
        rt[i] := rt[i].(remaining := 0, nextRelease := tasks[i].phase);
      }
    }
  }

  /** The release loop of one tick. */
  method ReleaseDue(tasks: seq<Task>, rt: array<Runtime>, t: int)
    requires rt.Length == |tasks|
    modifies rt
    ensures rt[..] == Released(tasks, old(rt[..]), t)
  {
    for i := 0 to rt.Length
      invariant forall j :: 0 <= j < i ==> rt[j] == Released(tasks, old(rt[..]), t)[j]
      invariant forall j :: i <= j < rt.Length ==> rt[j] == old(rt[j])
    {
      if t == rt[i].nextRelease {
        rt[i] := rt[i].(remaining := tasks[i].wcet, absDeadline := t + tasks[i].deadline);
      }
    }
  }

  /** The RM selection loop: the pending task with the shortest period,
      keeping the earlier task on a tie. */
  method SelectRm(tasks: seq<Task>, rt: array<Runtime>) returns (selected: Option<nat>)
    requires rt.Length == |tasks|
    ensures selected == RmPickUpTo(tasks, rt[..], rt.Length)
  {
    selected := None;
    for i := 0 to rt.Length
      invariant selected == RmPickUpTo(tasks, rt[..], i)
    {
      if rt[i].remaining > 0 {
        if selected.None? || tasks[i].period < tasks[selected.value].period {
          selected := Some(i);
        }
      }
    }
  }

  /** The EDF selection loop: the pending task with the earliest absolute
      deadline, then the earliest next release, keeping the earlier task on a
      tie. */
  method SelectEdf(rt: array<Runtime>) returns (selected: Option<nat>)
    ensures selected == EdfPickUpTo(rt[..], rt.Length)
  {
    selected := None;
    for i := 0 to rt.Length
      invariant selected == EdfPickUpTo(rt[..], i)
    {
      if rt[i].remaining > 0 {
        if selected.None?
           || rt[i].absDeadline < rt[selected.value].absDeadline
           || (rt[i].absDeadline == rt[selected.value].absDeadline
               && rt[i].nextRelease < rt[selected.value].nextRelease)
        {
          selected := Some(i);
        }
      }
    }
  }

  /** The miss-detection loop of one tick: lists the missing tasks in index
      order and abandons their instances. */
  method DetectMisses(rt: array<Runtime>, t: int) returns (missed: seq<nat>)
    modifies rt
    ensures missed == MissList(old(rt[..]), t)
    ensures rt[..] == DropMissed(old(rt[..]), t)
  {
    missed := [];
    for i := 0 to rt.Length
      invariant missed == Indices(old(rt[..]), r => MissesAt(r, t), i)
      invariant forall j :: 0 <= j < i ==> rt[j] == DropMissed(old(rt[..]), t)[j]
      invariant forall j :: i <= j < rt.Length ==> rt[j] == old(rt[j])
    {
      if rt[i].remaining > 0 && t >= rt[i].absDeadline {
        missed := missed + [i];
        rt[i] := rt[i].(remaining := 0);
      }
    }
  }

  /** The loop after the main loop that lists the tasks whose pending
      instance is due exactly at the horizon. */
  method HorizonDue(rt: array<Runtime>, hyperperiod: int) returns (due: seq<nat>)
    ensures due == BoundaryList(rt[..], hyperperiod)
  {
    due := [];
    for i := 0 to rt.Length
      invariant due == Indices(rt[..], r => DueAtHorizon(r, hyperperiod), i)
    {
      if rt[i].absDeadline == hyperperiod && rt[i].remaining > 0 {
        due := due + [i];
      }
    }
  }

  /** One tick of the loop body: release, select, detect misses, and either
      report the misses or run the selected task for one time unit. */
  method RunTick(policy: Policy, tasks: seq<Task>, rt: array<Runtime>, t: int)
    returns (entry: Entry, stop: bool)
    requires rt.Length == |tasks|
    modifies rt
    ensures Tick(policy, tasks, old(rt[..]), t) == TickResult(entry, rt[..], stop)
  {
    ReleaseDue(tasks, rt, t);
    var selected;
    if policy == RM {
      selected := SelectRm(tasks, rt);
    } else {
      selected := SelectEdf(rt);
    }
    var missed := DetectMisses(rt, t);
    if missed != [] {
      return Miss(t, selected, missed), true;
    }
    match selected {
      case None =>
        entry := Idle(t);
      case Some(s) =>
        entry := Run(t, s);
        ghost var dropped := rt[..];
        rt[s] := rt[s].(remaining := rt[s].remaining - 1);
        if rt[s].remaining == 0 {
          rt[s] := rt[s].(nextRelease := rt[s].nextRelease + tasks[s].period);
        }
        assert rt[..] == Executed(tasks, dropped, s);
    }
    stop := false;
  }

  /** The main loop: ticks `0 .. hyperperiod-1`, stopping after the first
      tick with a miss, remembering the task that ran at the last tick. */
  method MainLoop(policy: Policy, tasks: seq<Task>, rt: array<Runtime>, hyperperiod: nat)
    returns (trace: seq<Entry>, stopped: bool, lastRan: Option<nat>)
    requires rt.Length == |tasks|
    modifies rt
    ensures MainRun(policy, tasks, old(rt[..]), hyperperiod) == Outcome(trace, rt[..], stopped)
    ensures !stopped ==> lastRan == LastRan(trace)
  {
    ghost var start := Outcome([], rt[..], false);
    trace, stopped, lastRan := [], false, None;
    for t := 0 to hyperperiod
      invariant Ticks(policy, tasks, start, 0, t) == Outcome(trace, rt[..], false)
      invariant lastRan == if t == hyperperiod then LastRan(trace) else None
    {
      ghost var before := Outcome(trace, rt[..], false);
      var entry, stop := RunTick(policy, tasks, rt, t);
      MainTicksAdvance(policy, tasks, start, t, before, TickResult(entry, rt[..], stop));
      trace := trace + [entry];
      if stop {
        MainTicksStopped(policy, tasks, start, t + 1, hyperperiod, Outcome(trace, rt[..], true));
        stopped := true;
        return;
      }
      if t == hyperperiod - 1 && entry.Run? {
        lastRan := Some(entry.task);
      }
    }
  }

  /** One simulation run: reset, the main loop, then the boundary tick when
      some deadline falls exactly on the horizon. */
  method Simulate(policy: Policy, tasks: seq<Task>, rt: array<Runtime>, hyperperiod: nat)
    returns (trace: seq<Entry>)
    requires rt.Length == |tasks|
    modifies rt
    ensures trace == Simulation(policy, tasks, old(rt[..]), hyperperiod).trace
    ensures rt[..] == Simulation(policy, tasks, old(rt[..]), hyperperiod).state
  {
    ResetRuntime(tasks, rt, policy);
    var stopped, lastRan;
    trace, stopped, lastRan := MainLoop(policy, tasks, rt, hyperperiod);
    if stopped {
      return;
    }
    var due := HorizonDue(rt, hyperperiod);
    if due != [] {
      trace := trace + [Boundary(hyperperiod, lastRan, due)];
    }
  }
}
