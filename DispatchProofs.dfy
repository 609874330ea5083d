/** Properties of the dispatch simulation: what each selection rule picks,
    what one tick does to the runtime state, the bounds it keeps, the shape
    of the trace, and that a run does not depend on state left by earlier
    runs. */
module DispatchProofs {

  import opened Options
  import opened TaskModel
  import opened Dispatch

  /** Once a run has stopped on a miss, later ticks add nothing. */
  lemma {:induction false} TicksStayStopped(policy: Policy, tasks: seq<Task>, o: Outcome, t: nat, n: nat)
    requires |o.state| == |tasks| && o.stopped
    ensures Ticks(policy, tasks, o, t, n) == o
    decreases n
  {
    if n > 0 {
      TicksStayStopped(policy, tasks, o, t + 1, n - 1);
    }
  }

  /** `n` applications of an arbitrary step function from `t` on. */
  function Iterate(f: (Outcome, nat) -> Outcome, o: Outcome, t: nat, n: nat): Outcome
    decreases n
  {
    if n == 0 then o else Iterate(f, f(o, t), t + 1, n - 1)
  }

  lemma {:induction false} IterateSnoc(f: (Outcome, nat) -> Outcome, o: Outcome, t: nat, n: nat)
    ensures Iterate(f, o, t, n + 1) == f(Iterate(f, o, t, n), t + n)
    decreases n
  {
    if n > 0 {
      IterateSnoc(f, f(o, t), t + 1, n - 1);
    }
  }

  /** The step of the simulation as a total step function. */
  function StepFn(policy: Policy, tasks: seq<Task>): (Outcome, nat) -> Outcome {
    (o: Outcome, t: nat) => if |o.state| == |tasks| then Step(policy, tasks, o, t) else o
  }

  lemma {:induction false} TicksIterate(policy: Policy, tasks: seq<Task>, o: Outcome, t: nat, n: nat)
    requires |o.state| == |tasks|
    ensures Ticks(policy, tasks, o, t, n) == Iterate(StepFn(policy, tasks), o, t, n)
    decreases n
  {
    if n > 0 {
      var o' := Step(policy, tasks, o, t);
      assert StepFn(policy, tasks)(o, t) == o';
      TicksIterate(policy, tasks, o', t + 1, n - 1);
    }
  }

  /** The ticks `t .. t+n` are the ticks `t .. t+n-1` followed by one more
      step. */
  lemma TicksSnoc(policy: Policy, tasks: seq<Task>, o: Outcome, t: nat, n: nat)
    requires |o.state| == |tasks|
    ensures Ticks(policy, tasks, o, t, n + 1) == Step(policy, tasks, Ticks(policy, tasks, o, t, n), t + n)
  {
    var f := StepFn(policy, tasks);
    TicksIterate(policy, tasks, o, t, n + 1);
    TicksIterate(policy, tasks, o, t, n);
    IterateSnoc(f, o, t, n);
    var last := Ticks(policy, tasks, o, t, n);
    assert f(last, t + n) == Step(policy, tasks, last, t + n);
  }

  /** One more tick of a run that has not stopped appends that tick's entry
      and takes its state. */
  lemma MainTicksAdvance(policy: Policy, tasks: seq<Task>, start: Outcome, t: nat, before: Outcome, r: TickResult)
    requires |start.state| == |tasks| && Ticks(policy, tasks, start, 0, t) == before && !before.stopped
    requires r == Tick(policy, tasks, before.state, t)
    ensures Ticks(policy, tasks, start, 0, t + 1) == Outcome(before.trace + [r.entry], r.next, r.stop)
  {
    TicksSnoc(policy, tasks, start, 0, t);
  }

  /** Once the ticks from `start` have stopped on a miss, later ticks add
      nothing. */
  lemma {:induction false} MainTicksStopped(policy: Policy, tasks: seq<Task>, start: Outcome, k: nat, m: nat, o: Outcome)
    requires |start.state| == |tasks| && k <= m
    requires Ticks(policy, tasks, start, 0, k) == o && o.stopped
    ensures Ticks(policy, tasks, start, 0, m) == o
    decreases m - k
  {
    if k < m {
      MainTicksStopped(policy, tasks, start, k, m - 1, o);
      TicksSnoc(policy, tasks, start, 0, m - 1);
    }
  }

  // ---------------------------------------------------------------------
  // Selection

  /** RM selects nothing exactly when no task is pending; otherwise it
      selects a pending task with priority over every other pending task:
      the shortest period, and the lowest index among equal periods. */
  lemma {:induction false} RmPickUpToIsHighestPriority(tasks: seq<Task>, rs: seq<Runtime>, k: nat)
    requires |rs| == |tasks| && k <= |rs|
    ensures RmPickUpTo(tasks, rs, k).None? <==> forall j :: 0 <= j < k ==> !Pending(rs[j])
    ensures RmPickUpTo(tasks, rs, k).Some? ==>
      var s := RmPickUpTo(tasks, rs, k).value;
      forall j :: 0 <= j < k && j != s && Pending(rs[j]) ==> HigherPriority(tasks, s, j)
  {
    if k > 0 {
      RmPickUpToIsHighestPriority(tasks, rs, k - 1);
    }
  }

  lemma RmSelection(tasks: seq<Task>, rs: seq<Runtime>)
    requires |rs| == |tasks|
    ensures Pick(RM, tasks, rs).None? <==> forall j :: 0 <= j < |rs| ==> !Pending(rs[j])
    ensures Pick(RM, tasks, rs).Some? ==>
      var s := Pick(RM, tasks, rs).value;
      && s < |rs| && Pending(rs[s])
      && forall j :: 0 <= j < |rs| && j != s && Pending(rs[j]) ==>
           tasks[s].period < tasks[j].period || (tasks[s].period == tasks[j].period && s < j)
  {
    RmPickUpToIsHighestPriority(tasks, rs, |rs|);
  }

  /** The EDF order: earlier absolute deadline, then earlier next release,
      then lower index. */
  predicate EdfBefore(rs: seq<Runtime>, a: nat, b: nat)
    requires a < |rs| && b < |rs|
  {
    || rs[a].absDeadline < rs[b].absDeadline
    || (rs[a].absDeadline == rs[b].absDeadline
        && (rs[a].nextRelease < rs[b].nextRelease
            || (rs[a].nextRelease == rs[b].nextRelease && a < b)))
  }

  lemma {:induction false} EdfPickUpToIsEarliest(rs: seq<Runtime>, k: nat)
    requires k <= |rs|
    ensures EdfPickUpTo(rs, k).None? <==> forall j :: 0 <= j < k ==> !Pending(rs[j])
    ensures EdfPickUpTo(rs, k).Some? ==>
      var s := EdfPickUpTo(rs, k).value;
      forall j :: 0 <= j < k && j != s && Pending(rs[j]) ==> EdfBefore(rs, s, j)
  {
    if k > 0 {
      EdfPickUpToIsEarliest(rs, k - 1);
    }
  }

  /** EDF selects nothing exactly when no task is pending; otherwise it
      selects the pending task that comes first in the EDF order. */
  lemma EdfSelection(tasks: seq<Task>, rs: seq<Runtime>)
    requires |rs| == |tasks|
    ensures Pick(EDF, tasks, rs).None? <==> forall j :: 0 <= j < |rs| ==> !Pending(rs[j])
    ensures Pick(EDF, tasks, rs).Some? ==>
      var s := Pick(EDF, tasks, rs).value;
      && s < |rs| && Pending(rs[s])
      && forall j :: 0 <= j < |rs| && j != s && Pending(rs[j]) ==> EdfBefore(rs, s, j)
  {
    EdfPickUpToIsEarliest(rs, |rs|);
  }

  // ---------------------------------------------------------------------
  // Lists of tasks

  predicate StrictlyIncreasing(s: seq<nat>) {
    forall a, b :: 0 <= a < b < |s| ==> s[a] < s[b]
  }

  lemma {:induction false} IndicesExact(rs: seq<Runtime>, p: Runtime -> bool, k: nat)
    requires k <= |rs|
    ensures forall j :: j in Indices(rs, p, k) <==> 0 <= j < k && p(rs[j])
    ensures StrictlyIncreasing(Indices(rs, p, k))
  {
    if k > 0 {
      IndicesExact(rs, p, k - 1);
      var prev := Indices(rs, p, k - 1);
      assert forall a :: 0 <= a < |prev| ==> prev[a] < k - 1 by {
        forall a | 0 <= a < |prev| ensures prev[a] < k - 1 {
          assert prev[a] in prev;
        }
      }
    }
  }

  /** No index qualifies: the list is empty. */
  lemma {:induction false} IndicesNone(rs: seq<Runtime>, p: Runtime -> bool, k: nat)
    requires k <= |rs|
    requires forall j :: 0 <= j < k ==> !p(rs[j])
    ensures Indices(rs, p, k) == []
  {
    if k > 0 {
      IndicesNone(rs, p, k - 1);
    }
  }

  /** Exactly one index `x` qualifies: the list is `[x]`. */
  lemma {:induction false} IndicesSingle(rs: seq<Runtime>, p: Runtime -> bool, k: nat, x: nat)
    requires x < k <= |rs| && p(rs[x])
    requires forall j :: 0 <= j < k && j != x ==> !p(rs[j])
    ensures Indices(rs, p, k) == [x]
  {
    if k - 1 == x {
      IndicesNone(rs, p, k - 1);
    } else {
      IndicesSingle(rs, p, k - 1, x);
    }
  }

  /** The miss list holds exactly the pending tasks whose absolute deadline
      is not after `t`, each once, in index order. */
  lemma MissListExact(rs: seq<Runtime>, t: int)
    ensures forall j :: j in MissList(rs, t) <==> 0 <= j < |rs| && Pending(rs[j]) && t >= rs[j].absDeadline
    ensures StrictlyIncreasing(MissList(rs, t))
  {
    IndicesExact(rs, r => MissesAt(r, t), |rs|);
  }

  /** The boundary list holds exactly the pending tasks whose absolute
      deadline is the horizon, each once, in index order. */
  lemma BoundaryListExact(rs: seq<Runtime>, hyperperiod: int)
    ensures forall j :: j in BoundaryList(rs, hyperperiod) <==>
      0 <= j < |rs| && rs[j].absDeadline == hyperperiod && Pending(rs[j])
    ensures StrictlyIncreasing(BoundaryList(rs, hyperperiod))
  {
    IndicesExact(rs, r => DueAtHorizon(r, hyperperiod), |rs|);
  }

  // ---------------------------------------------------------------------
  // One tick

  /** What one tick does. The release phase gives every task whose next
      release is `t` a fresh instance with cost `wcet` and absolute deadline
      `t + deadline`, and leaves the others alone. The tick then stops
      exactly when some released task misses; a stopping tick reports the selected task and the
      misses and zeroes the missing tasks' cost. A non-stopping tick changes
      only the selected task: its cost drops by one, its next release moves
      on by one period exactly when the cost reaches zero, and its absolute
      deadline stays. */
  lemma TickEffect(policy: Policy, tasks: seq<Task>, rs: seq<Runtime>, t: int)
    requires |rs| == |tasks|
    ensures
      var released := Released(tasks, rs, t);
      var r := Tick(policy, tasks, rs, t);
      && (forall j :: 0 <= j < |rs| ==>
            && released[j].nextRelease == rs[j].nextRelease
            && (rs[j].nextRelease == t ==>
                  released[j].remaining == tasks[j].wcet && released[j].absDeadline == t + tasks[j].deadline)
            && (rs[j].nextRelease != t ==> released[j] == rs[j]))
      && (r.stop <==> exists j :: 0 <= j < |rs| && Pending(released[j]) && t >= released[j].absDeadline)
      && (r.stop ==>
            && r.entry == Miss(t, Pick(policy, tasks, released), MissList(released, t))
            && forall j :: 0 <= j < |rs| ==>
                 r.next[j] == if Pending(released[j]) && t >= released[j].absDeadline
                              then released[j].(remaining := 0) else released[j])
      && (!r.stop && Pick(policy, tasks, released).None? ==> r.entry == Idle(t) && r.next == released)
      && (!r.stop && Pick(policy, tasks, released).Some? ==>
            var s := Pick(policy, tasks, released).value;
            && r.entry == Run(t, s)
            && r.next[s].remaining == released[s].remaining - 1
            && r.next[s].nextRelease ==
                 (if r.next[s].remaining == 0 then released[s].nextRelease + tasks[s].period
                  else released[s].nextRelease)
            && r.next[s].absDeadline == released[s].absDeadline
            && forall j :: 0 <= j < |rs| && j != s ==> r.next[j] == released[j])
  {
    var released := Released(tasks, rs, t);
    MissListExact(released, t);
    if MissList(released, t) == [] {
      assert forall j :: 0 <= j < |rs| ==> !MissesAt(released[j], t);
      assert DropMissed(released, t) == released;
    } else {
      var j := MissList(released, t)[0];
      assert j in MissList(released, t);
    }
  }

  // ---------------------------------------------------------------------
  // The cost bound

  /** Every task's remaining cost lies between zero and its WCET. */
  ghost predicate CostBounded(tasks: seq<Task>, rs: seq<Runtime>)
    requires |rs| == |tasks|
  {
    forall i :: 0 <= i < |rs| ==> 0 <= rs[i].remaining <= tasks[i].wcet
  }

  lemma TickKeepsCostBounded(policy: Policy, tasks: seq<Task>, rs: seq<Runtime>, t: int)
    requires |rs| == |tasks| && ValidTaskSet(tasks)
    requires CostBounded(tasks, rs)
    ensures CostBounded(tasks, Tick(policy, tasks, rs, t).next)
  {
    var released := Released(tasks, rs, t);
    assert CostBounded(tasks, released);
    var dropped := DropMissed(released, t);
    assert CostBounded(tasks, dropped);
    TickEffect(policy, tasks, rs, t);
  }

  lemma StepKeepsCostBounded(policy: Policy, tasks: seq<Task>, o: Outcome, t: int, o': Outcome)
    requires |o.state| == |tasks| && ValidTaskSet(tasks)
    requires CostBounded(tasks, o.state)
    requires o' == Step(policy, tasks, o, t)
    ensures |o'.state| == |tasks| && CostBounded(tasks, o'.state)
  {
    if !o.stopped {
      TickKeepsCostBounded(policy, tasks, o.state, t);
    }
  }

  lemma {:induction false} TicksKeepCostBounded(policy: Policy, tasks: seq<Task>, o: Outcome, t: nat, n: nat)
    requires |o.state| == |tasks| && ValidTaskSet(tasks)
    requires CostBounded(tasks, o.state)
    ensures CostBounded(tasks, Ticks(policy, tasks, o, t, n).state)
    decreases n
  {
    if n > 0 {
      var o' := Step(policy, tasks, o, t);
      StepKeepsCostBounded(policy, tasks, o, t, o');
      TicksKeepCostBounded(policy, tasks, o', t + 1, n - 1);
    }
  }

  /** `0 <= remaining <= wcet` holds after the reset, after every tick of
      the main loop, and at the end of a run, whatever state the run starts
      from. */
  lemma SimulationKeepsCostBounded(policy: Policy, tasks: seq<Task>, rs0: seq<Runtime>, hyperperiod: nat, k: nat)
    requires |rs0| == |tasks| && ValidTaskSet(tasks)
    ensures CostBounded(tasks, Reset(tasks, rs0, policy))
    ensures CostBounded(tasks, MainRun(policy, tasks, Reset(tasks, rs0, policy), k).state)
    ensures CostBounded(tasks, Simulation(policy, tasks, rs0, hyperperiod).state)
  {
    var start := Outcome([], Reset(tasks, rs0, policy), false);
    assert CostBounded(tasks, start.state);
    TicksKeepCostBounded(policy, tasks, start, 0, k);
    TicksKeepCostBounded(policy, tasks, start, 0, hyperperiod);
  }

  // ---------------------------------------------------------------------
  // Release timing

  /** Every pending instance was released before tick `t`: a task's next
      release moves on only when its instance completes, so while it is
      pending that field still holds the instance's own release time. */
  ghost predicate ReleasedBefore(rs: seq<Runtime>, t: int) {
    forall i :: 0 <= i < |rs| && Pending(rs[i]) ==> rs[i].nextRelease < t
  }

  /** The release phase of tick `t` leaves every pending instance alone, so
      it never replaces an unfinished instance with a new one. */
  lemma ReleaseSparesPending(tasks: seq<Task>, rs: seq<Runtime>, t: int)
    requires |rs| == |tasks| && ReleasedBefore(rs, t)
    ensures forall i :: 0 <= i < |rs| && Pending(rs[i]) ==> Released(tasks, rs, t)[i] == rs[i]
  {
  }

  lemma TickKeepsReleasedBefore(policy: Policy, tasks: seq<Task>, rs: seq<Runtime>, t: int)
    requires |rs| == |tasks| && ReleasedBefore(rs, t)
    ensures ReleasedBefore(Tick(policy, tasks, rs, t).next, t + 1)
  {
  }

  lemma StepKeepsReleasedBefore(policy: Policy, tasks: seq<Task>, o: Outcome, t: int, o': Outcome)
    requires |o.state| == |tasks| && ReleasedBefore(o.state, t)
    requires o' == Step(policy, tasks, o, t)
    ensures |o'.state| == |tasks| && ReleasedBefore(o'.state, t + 1)
  {
  }

  lemma {:induction false} TicksKeepReleasedBefore(policy: Policy, tasks: seq<Task>, o: Outcome, t: nat, n: nat)
    requires |o.state| == |tasks| && ReleasedBefore(o.state, t)
    ensures ReleasedBefore(Ticks(policy, tasks, o, t, n).state, t + n)
    decreases n
  {
    if n > 0 {
      var o' := Step(policy, tasks, o, t);
      StepKeepsReleasedBefore(policy, tasks, o, t, o');
      TicksKeepReleasedBefore(policy, tasks, o', t + 1, n - 1);
    }
  }

  /** At the start of every tick `k` of a run, every pending instance was
      released before `k`, so the release phase of tick `k` does not touch
      it. */
  lemma MainRunReleasedBefore(policy: Policy, tasks: seq<Task>, rs0: seq<Runtime>, k: nat)
    requires |rs0| == |tasks|
    ensures
      var s := MainRun(policy, tasks, Reset(tasks, rs0, policy), k).state;
      && ReleasedBefore(s, k)
      && forall i :: 0 <= i < |s| && Pending(s[i]) ==> Released(tasks, s, k)[i] == s[i]
  {
    var start := Outcome([], Reset(tasks, rs0, policy), false);
    TicksKeepReleasedBefore(policy, tasks, start, 0, k);
    ReleaseSparesPending(tasks, MainRun(policy, tasks, Reset(tasks, rs0, policy), k).state, k);
  }

  /** An instance still pending when its deadline has come is reported: the
      tick stops with that task in the miss list. */
  lemma PendingPastDeadlineIsReported(policy: Policy, tasks: seq<Task>, rs: seq<Runtime>, t: int, i: nat)
    requires |rs| == |tasks| && ReleasedBefore(rs, t)
    requires i < |rs| && Pending(rs[i]) && rs[i].absDeadline <= t
    ensures Tick(policy, tasks, rs, t).stop
    ensures Tick(policy, tasks, rs, t).entry.Miss? && i in Tick(policy, tasks, rs, t).entry.missed
  {
    var released := Released(tasks, rs, t);
    ReleaseSparesPending(tasks, rs, t);
    MissListExact(released, t);
    TickEffect(policy, tasks, rs, t);
  }

  // ---------------------------------------------------------------------
  // The shape of the trace

  /** The first `n` entries are plain tick entries (a run or an idle tick)
      for the ticks `0 .. n-1`, in order. */
  predicate TickEntries(trace: seq<Entry>, n: nat) {
    n <= |trace| && forall j :: 0 <= j < n ==> (trace[j].Run? || trace[j].Idle?) && trace[j].t == j
  }

  /** The shape of a run of `k` ticks: if it did not stop, one plain entry
      per tick; if it stopped, plain entries up to the tick it stopped at and
      then its only miss entry, with a non-empty miss list. */
  predicate Shaped(o: Outcome, k: nat) {
    && (!o.stopped ==> |o.trace| == k && TickEntries(o.trace, k))
    && (o.stopped ==>
          && 1 <= |o.trace| <= k
          && TickEntries(o.trace, |o.trace| - 1)
          && o.trace[|o.trace| - 1].Miss?
          && o.trace[|o.trace| - 1].t == |o.trace| - 1
          && o.trace[|o.trace| - 1].missed != [])
  }

  lemma StepShape(policy: Policy, tasks: seq<Task>, o: Outcome, k: nat, o': Outcome)
    requires |o.state| == |tasks| && Shaped(o, k)
    requires o' == Step(policy, tasks, o, k)
    ensures Shaped(o', k + 1)
  {
  }

  lemma {:induction false} TicksShape(policy: Policy, tasks: seq<Task>, o: Outcome, t: nat, n: nat)
    requires |o.state| == |tasks| && Shaped(o, t)
    ensures Shaped(Ticks(policy, tasks, o, t, n), t + n)
    decreases n
  {
    if n > 0 {
      var o' := Step(policy, tasks, o, t);
      StepShape(policy, tasks, o, t, o');
      TicksShape(policy, tasks, o', t + 1, n - 1);
    }
  }

  /** Every main loop of `k` ticks has that shape. */
  lemma MainRunShape(policy: Policy, tasks: seq<Task>, start: seq<Runtime>, k: nat)
    requires |start| == |tasks|
    ensures Shaped(MainRun(policy, tasks, start, k), k)
  {
    TicksShape(policy, tasks, Outcome([], start, false), 0, k);
  }

  /** The boundary tick applied to a main loop of `hyperperiod` ticks with
      that shape. */
  lemma FinishShape(main: Outcome, hyperperiod: nat)
    requires hyperperiod > 0 && Shaped(main, hyperperiod)
    ensures
      var o := Finish(main, hyperperiod);
      && (main.stopped ==>
            && o == main
            && 1 <= |o.trace| <= hyperperiod
            && TickEntries(o.trace, |o.trace| - 1)
            && o.trace[|o.trace| - 1].Miss?
            && o.trace[|o.trace| - 1].t == |o.trace| - 1
            && forall j :: 0 <= j < |o.trace| ==> !o.trace[j].Boundary?)
      && (!main.stopped ==>
            && TickEntries(o.trace, hyperperiod)
            && (|o.trace| == hyperperiod || |o.trace| == hyperperiod + 1)
            && (|o.trace| == hyperperiod + 1 <==>
                  exists i :: 0 <= i < |o.state| && o.state[i].absDeadline == hyperperiod && Pending(o.state[i]))
            && (|o.trace| == hyperperiod + 1 ==>
                  var last := o.trace[hyperperiod - 1];
                  && o.trace[hyperperiod] == Boundary(hyperperiod, if last.Run? then Some(last.task) else None,
                                                      BoundaryList(o.state, hyperperiod))
                  && forall j :: j in o.trace[hyperperiod].missed <==>
                       0 <= j < |o.state| && o.state[j].absDeadline == hyperperiod && Pending(o.state[j])))
  {
    var o := Finish(main, hyperperiod);
    BoundaryListExact(main.state, hyperperiod);
    var due := BoundaryList(main.state, hyperperiod);
    if !main.stopped && due != [] {
      var j := due[0];
      assert j in due;
      var boundary := Boundary(hyperperiod, LastRan(main.trace), due);
      assert o == Outcome(main.trace + [boundary], main.state, false);
      assert TickEntries(o.trace, hyperperiod) by {
        forall j | 0 <= j < hyperperiod ensures o.trace[j] == main.trace[j] { }
      }
    }
  }

  /** A whole run. If the main loop stops on a miss at tick `t < hyperperiod`,
      the trace ends there with the miss entry and has no boundary entry.
      Otherwise it has one plain entry per tick `0 .. hyperperiod-1`, and one
      more, the boundary entry at `t = hyperperiod`, exactly when some task's
      pending instance is due at the horizon; that entry lists exactly those
      tasks, in index order, with the task that ran at `hyperperiod-1`. */
  lemma SimulationShape(policy: Policy, tasks: seq<Task>, rs0: seq<Runtime>, hyperperiod: nat)
    requires |rs0| == |tasks| && hyperperiod > 0
    ensures
      var main := MainRun(policy, tasks, Reset(tasks, rs0, policy), hyperperiod);
      var o := Simulation(policy, tasks, rs0, hyperperiod);
      && (main.stopped ==>
            && o == main
            && 1 <= |o.trace| <= hyperperiod
            && TickEntries(o.trace, |o.trace| - 1)
            && o.trace[|o.trace| - 1].Miss?
            && o.trace[|o.trace| - 1].t == |o.trace| - 1
            && forall j :: 0 <= j < |o.trace| ==> !o.trace[j].Boundary?)
      && (!main.stopped ==>
            && TickEntries(o.trace, hyperperiod)
            && o.state == main.state
            && (|o.trace| == hyperperiod || |o.trace| == hyperperiod + 1)
            && (|o.trace| == hyperperiod + 1 <==>
                  exists i :: 0 <= i < |tasks| && o.state[i].absDeadline == hyperperiod && Pending(o.state[i]))
            && (|o.trace| == hyperperiod + 1 ==>
                  var last := o.trace[hyperperiod - 1];
                  && o.trace[hyperperiod] == Boundary(hyperperiod, if last.Run? then Some(last.task) else None,
                                                      BoundaryList(o.state, hyperperiod))
                  && forall j :: j in o.trace[hyperperiod].missed <==>
                       0 <= j < |tasks| && o.state[j].absDeadline == hyperperiod && Pending(o.state[j])))
  {
    var main := MainRun(policy, tasks, Reset(tasks, rs0, policy), hyperperiod);
    MainRunShape(policy, tasks, Reset(tasks, rs0, policy), hyperperiod);
    FinishShape(main, hyperperiod);
  }

  // ---------------------------------------------------------------------
  // Independence from leftover state

  /** Two runtime states that agree on all a tick can observe: every task's
      remaining cost and next release, and the absolute deadline of every
      pending task. */
  ghost predicate Agree(a: seq<Runtime>, b: seq<Runtime>) {
    && |a| == |b|
    && forall i {:trigger a[i], b[i]} :: 0 <= i < |a| ==>
         && a[i].remaining == b[i].remaining
         && a[i].nextRelease == b[i].nextRelease
         && (Pending(a[i]) ==> a[i].absDeadline == b[i].absDeadline)
  }

  lemma {:induction false} RmPickAgree(tasks: seq<Task>, a: seq<Runtime>, b: seq<Runtime>, k: nat)
    requires |a| == |tasks| && Agree(a, b) && k <= |a|
    ensures RmPickUpTo(tasks, a, k) == RmPickUpTo(tasks, b, k)
  {
    if k > 0 {
      RmPickAgree(tasks, a, b, k - 1);
    }
  }

  lemma {:induction false} EdfPickAgree(a: seq<Runtime>, b: seq<Runtime>, k: nat)
    requires Agree(a, b) && k <= |a|
    ensures EdfPickUpTo(a, k) == EdfPickUpTo(b, k)
  {
    if k > 0 {
      EdfPickAgree(a, b, k - 1);
    }
  }

  lemma {:induction false} IndicesAgree(a: seq<Runtime>, b: seq<Runtime>, p: Runtime -> bool, k: nat)
    requires |a| == |b| && k <= |a|
    requires forall j :: 0 <= j < k ==> p(a[j]) == p(b[j])
    ensures Indices(a, p, k) == Indices(b, p, k)
  {
    if k > 0 {
      IndicesAgree(a, b, p, k - 1);
    }
  }

  /** Agreeing states produce the same tick entry and agreeing successors. */
  lemma TickAgree(policy: Policy, tasks: seq<Task>, a: seq<Runtime>, b: seq<Runtime>, t: int)
    requires |a| == |tasks| && Agree(a, b)
    ensures Tick(policy, tasks, a, t).entry == Tick(policy, tasks, b, t).entry
    ensures Tick(policy, tasks, a, t).stop == Tick(policy, tasks, b, t).stop
    ensures Agree(Tick(policy, tasks, a, t).next, Tick(policy, tasks, b, t).next)
  {
    var ra, rb := Released(tasks, a, t), Released(tasks, b, t);
    assert Agree(ra, rb);
    RmPickAgree(tasks, ra, rb, |ra|);
    EdfPickAgree(ra, rb, |ra|);
    IndicesAgree(ra, rb, r => MissesAt(r, t), |ra|);
    var da, db := DropMissed(ra, t), DropMissed(rb, t);
    assert Agree(da, db);
    var sel := Pick(policy, tasks, ra);
    if sel.Some? {
      assert Agree(Executed(tasks, da, sel.value), Executed(tasks, db, sel.value));
    }
  }

  /** Outcomes with the same trace and stop flag and agreeing states. */
  ghost predicate OutcomesAgree(oa: Outcome, ob: Outcome) {
    oa.trace == ob.trace && oa.stopped == ob.stopped && Agree(oa.state, ob.state)
  }

  lemma StepAgree(policy: Policy, tasks: seq<Task>, oa: Outcome, ob: Outcome, t: int, oa': Outcome, ob': Outcome)
    requires |oa.state| == |tasks| && OutcomesAgree(oa, ob)
    requires oa' == Step(policy, tasks, oa, t) && ob' == Step(policy, tasks, ob, t)
    ensures OutcomesAgree(oa', ob')
  {
    if !oa.stopped {
      TickAgree(policy, tasks, oa.state, ob.state, t);
    }
  }

  lemma {:induction false} TicksAgree(policy: Policy, tasks: seq<Task>, oa: Outcome, ob: Outcome, t: nat, n: nat)
    requires |oa.state| == |tasks| && OutcomesAgree(oa, ob)
    ensures OutcomesAgree(Ticks(policy, tasks, oa, t, n), Ticks(policy, tasks, ob, t, n))
    decreases n
  {
    if n > 0 {
      var na, nb := Step(policy, tasks, oa, t), Step(policy, tasks, ob, t);
      StepAgree(policy, tasks, oa, ob, t, na, nb);
      TicksAgree(policy, tasks, na, nb, t + 1, n - 1);
    }
  }

  /** A run's trace does not depend on the runtime state it starts from. For
      RM the reset leaves each absolute deadline as the previous run (or the
      parser) left it, but that value is read only while the task is pending,
      which it never is before its first release. For EDF the reset
      overwrites every field, so the whole outcome is the same. Running
      either policy twice on the same task set gives the same trace. */
  lemma SimulationIgnoresLeftoverState(policy: Policy, tasks: seq<Task>, rs0: seq<Runtime>, rs1: seq<Runtime>, hyperperiod: nat)
    requires |rs0| == |tasks| && |rs1| == |tasks|
    ensures Simulation(policy, tasks, rs0, hyperperiod).trace == Simulation(policy, tasks, rs1, hyperperiod).trace
    ensures policy == EDF ==> Simulation(policy, tasks, rs0, hyperperiod) == Simulation(policy, tasks, rs1, hyperperiod)
  {
    var a, b := Reset(tasks, rs0, policy), Reset(tasks, rs1, policy);
    assert Agree(a, b);
    TicksAgree(policy, tasks, Outcome([], a, false), Outcome([], b, false), 0, hyperperiod);
    var ma, mb := MainRun(policy, tasks, a, hyperperiod), MainRun(policy, tasks, b, hyperperiod);
    IndicesAgree(ma.state, mb.state, r => DueAtHorizon(r, hyperperiod), |ma.state|);
    if policy == EDF {
      assert a == b;
    }
  }
}
