/** The tick-driven dispatch simulation as functions of the runtime state:
    one tick releases instances, selects a task, detects misses, and then
    either stops on a miss or runs the selected task for one time unit. A run
    is the ticks `0 .. hyperperiod-1` in order, stopping at the first miss,
    followed, when no miss occurred, by an extra tick at `t = hyperperiod`
    for deadlines that fall exactly on the horizon. */
module Dispatch {

  import opened Options
  import opened TaskModel

  /** The two priority policies: fixed period order, or earliest deadline. */
  datatype Policy = RM | EDF

  /** One line of the trace, with tasks identified by index. */
  datatype Entry =
    | Run(t: int, task: nat)
    | Idle(t: int)
    | Miss(t: int, selected: Option<nat>, missed: seq<nat>)
    | Boundary(t: int, lastRan: Option<nat>, missed: seq<nat>)

  /** The result of one tick: the trace entry, the new runtime state, and
      whether the run stops here. */
  datatype TickResult = TickResult(entry: Entry, next: seq<Runtime>, stop: bool)

  /** The trace and the runtime state after a (possibly truncated) run, and
      whether it stopped on a deadline miss. */
  datatype Outcome = Outcome(trace: seq<Entry>, state: seq<Runtime>, stopped: bool)

  // ---------------------------------------------------------------------
  // Per-task state changes

  /** The reset before a run. RM leaves `absDeadline` as it was; EDF sets it
      to `phase + deadline`. */
  function Reset(tasks: seq<Task>, rs: seq<Runtime>, policy: Policy): (r: seq<Runtime>)
    requires |rs| == |tasks|
    ensures |r| == |tasks|
  {
    seq(|tasks|, i requires 0 <= i < |tasks| =>
      Runtime(0, tasks[i].phase,
              if policy == EDF then tasks[i].phase + tasks[i].deadline else rs[i].absDeadline))
  }

  /** Release phase: every task whose next release is `t` gets a fresh
      instance with cost `wcet` and absolute deadline `t + deadline`. */
  function Released(tasks: seq<Task>, rs: seq<Runtime>, t: int): (r: seq<Runtime>)
    requires |rs| == |tasks|
    ensures |r| == |tasks|
  {
    seq(|rs|, i requires 0 <= i < |rs| =>
      if rs[i].nextRelease == t
      then rs[i].(remaining := tasks[i].wcet, absDeadline := t + tasks[i].deadline)
      else rs[i])
  }

  /** A pending instance whose absolute deadline is not after `t`. */
  predicate MissesAt(r: Runtime, t: int) {
    Pending(r) && t >= r.absDeadline
  }

  /** A pending instance whose absolute deadline is exactly the horizon. */
  predicate DueAtHorizon(r: Runtime, hyperperiod: int) {
    r.absDeadline == hyperperiod && Pending(r)
  }

  /** Miss phase: every missing instance is abandoned. */
  function DropMissed(rs: seq<Runtime>, t: int): (r: seq<Runtime>)
    ensures |r| == |rs|
  {
    seq(|rs|, i requires 0 <= i < |rs| =>
      if MissesAt(rs[i], t) then rs[i].(remaining := 0) else rs[i])
  }

  /** One time unit of the selected task; on completion its next release
      moves on by one period. */
  function Executed(tasks: seq<Task>, rs: seq<Runtime>, s: nat): (r: seq<Runtime>)
    requires |rs| == |tasks| && s < |rs|
    ensures |r| == |tasks|
  {
    var left := rs[s].remaining - 1;
    rs[s := rs[s].(remaining := left,
                   nextRelease := if left == 0 then rs[s].nextRelease + tasks[s].period
                                  else rs[s].nextRelease)]
  }

  // ---------------------------------------------------------------------
  // Lists of tasks, in index order

  /** The indices below `k` whose runtime state satisfies `p`, in order. */
  function Indices(rs: seq<Runtime>, p: Runtime -> bool, k: nat): seq<nat>
    requires k <= |rs|
  {
    if k == 0 then []
    else Indices(rs, p, k - 1) + (if p(rs[k - 1]) then [k - 1] else [])
  }

  /** The tasks that miss their deadline at tick `t`. */
  function MissList(rs: seq<Runtime>, t: int): seq<nat> {
    Indices(rs, r => MissesAt(r, t), |rs|)
  }

  /** The tasks whose pending instance is due exactly at the horizon. */
  function BoundaryList(rs: seq<Runtime>, hyperperiod: int): seq<nat> {
    Indices(rs, r => DueAtHorizon(r, hyperperiod), |rs|)
  }

  // ---------------------------------------------------------------------
  // Selection, one fold per policy, each following its source loop

  /** RM selection over the first `k` tasks: a pending task replaces the
      current choice only when its period is strictly shorter. */
  function RmPickUpTo(tasks: seq<Task>, rs: seq<Runtime>, k: nat): (s: Option<nat>)
    requires |rs| == |tasks| && k <= |rs|
    ensures s.Some? ==> s.value < k && Pending(rs[s.value])
  {
    if k == 0 then None
    else
      var s := RmPickUpTo(tasks, rs, k - 1);
      if rs[k - 1].remaining > 0 && (s.None? || tasks[k - 1].period < tasks[s.value].period)
      then Some(k - 1)
      else s
  }

  /** EDF selection over the first `k` tasks: a pending task replaces the
      current choice when its absolute deadline is strictly earlier, or equal
      with a strictly earlier next release. */
  function EdfPickUpTo(rs: seq<Runtime>, k: nat): (s: Option<nat>)
    requires k <= |rs|
    ensures s.Some? ==> s.value < k && Pending(rs[s.value])
  {
    if k == 0 then None
    else
      var s := EdfPickUpTo(rs, k - 1);
      if rs[k - 1].remaining > 0
         && (s.None?
             || rs[k - 1].absDeadline < rs[s.value].absDeadline
             || (rs[k - 1].absDeadline == rs[s.value].absDeadline
                 && rs[k - 1].nextRelease < rs[s.value].nextRelease))
      then Some(k - 1)
      else s
  }

  function Pick(policy: Policy, tasks: seq<Task>, rs: seq<Runtime>): (s: Option<nat>)
    requires |rs| == |tasks|
    ensures s.Some? ==> s.value < |rs| && Pending(rs[s.value])
  {
    match policy
    case RM => RmPickUpTo(tasks, rs, |rs|)
    case EDF => EdfPickUpTo(rs, |rs|)
  }

  // ---------------------------------------------------------------------
  // Ticks and runs

  /** One tick at time `t`. Selection happens on the released state, before
      miss detection, so the selected task may be one that misses. */
  function Tick(policy: Policy, tasks: seq<Task>, rs: seq<Runtime>, t: int): (r: TickResult)
    requires |rs| == |tasks|
    ensures |r.next| == |tasks|
  {
    var released := Released(tasks, rs, t);
    var selected := Pick(policy, tasks, released);
    var missed := MissList(released, t);
    var dropped := DropMissed(released, t);
    if missed != [] then TickResult(Miss(t, selected, missed), dropped, true)
    else
      match selected
      case None => TickResult(Idle(t), dropped, false)
      case Some(s) => TickResult(Run(t, s), Executed(tasks, dropped, s), false)
  }

  /** The main loop's step at tick `t`: nothing once the run has stopped,
      otherwise one tick appended to the trace. */
  function Step(policy: Policy, tasks: seq<Task>, o: Outcome, t: int): (o': Outcome)
    requires |o.state| == |tasks|
    ensures |o'.state| == |tasks|
  {
    if o.stopped then o
    else
      var r := Tick(policy, tasks, o.state, t);
      Outcome(o.trace + [r.entry], r.next, r.stop)
  }

  /** The ticks `t .. t+n-1` continued from the outcome `o` of the ticks
      before them, one step each. */
  function Ticks(policy: Policy, tasks: seq<Task>, o: Outcome, t: nat, n: nat): (o': Outcome)
    requires |o.state| == |tasks|
    ensures |o'.state| == |tasks|
    decreases n
  {
    if n == 0 then o else Ticks(policy, tasks, Step(policy, tasks, o, t), t + 1, n - 1)
  }

  /** The main loop from state `start`: the ticks `0 .. hyperperiod-1`,
      stopping after the first tick with a miss. */
  function MainRun(policy: Policy, tasks: seq<Task>, start: seq<Runtime>, hyperperiod: nat): (o: Outcome)
    requires |start| == |tasks|
    ensures |o.state| == |tasks|
  {
    Ticks(policy, tasks, Outcome([], start, false), 0, hyperperiod)
  }

  /** The task recorded as running in the last tick of a trace, if any. */
  function LastRan(trace: seq<Entry>): Option<nat> {
    if |trace| > 0 && trace[|trace| - 1].Run? then Some(trace[|trace| - 1].task) else None
  }

  /** The boundary tick after a main loop that did not stop: when some
      pending instance is due exactly at the horizon, one more entry lists
      those tasks with the task that ran last. */
  function Finish(o: Outcome, hyperperiod: nat): (f: Outcome)
    ensures f.state == o.state
  {
    if o.stopped then o
    else
      var due := BoundaryList(o.state, hyperperiod);
      if due == [] then o
      else Outcome(o.trace + [Boundary(hyperperiod, LastRan(o.trace), due)], o.state, false)
  }

  /** A whole simulation run from the runtime state `rs0` left by earlier
      code: reset, the main loop over `[0, hyperperiod)`, and the boundary
      tick when it applies. */
  function Simulation(policy: Policy, tasks: seq<Task>, rs0: seq<Runtime>, hyperperiod: nat): (o: Outcome)
    requires |rs0| == |tasks|
    ensures |o.state| == |tasks|
  {
    Finish(MainRun(policy, tasks, Reset(tasks, rs0, policy), hyperperiod), hyperperiod)
  }
}
