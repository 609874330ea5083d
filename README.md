# Rate-monotonic and EDF scheduling of periodic tasks, modelled in Dafny

This project models the scheduling engine of `MP2.c` from the
Realtime-Scheduling repository. The engine takes a set of periodic tasks,
each with a phase, a period, a worst-case execution time (WCET) and a
relative deadline. It contains:

- **Euclid's `gcd`, `lcm` and the hyperperiod.** The hyperperiod is the
  left fold of `lcm` over the periods, seeded with the first task's period.
  (`NumberTheory`, `Horizon`)
- **Response-Time Analysis (RTA) for fixed-priority scheduling.**
  `calculate_response_time` iterates
  `R = wcet_i + sum over higher-priority j of ceil(R / period_j) * wcet_j`
  starting from `R = wcet_i`. It returns -1 as soon as `R` passes the
  deadline. `schedule_rm` runs this exact test only when the
  utilization-bound test fails. (`ResponseTime`)
- **The tick simulators of `schedule_rm` and `schedule_edf`.** Each tick does
  four things in order:
  - it releases due instances;
  - it selects a task, either the shortest period (RM) or the earliest
    absolute deadline (EDF);
  - it detects and drops the instances that missed their deadline;
  - it either stops on a miss or runs the selected task for one time unit.

  After a main loop without a miss over `[0, hyperperiod)`, a boundary tick
  at `t = hyperperiod` reports the instances whose deadline lies exactly on
  the horizon.

The simulators are modelled in the source's imperative form:

- The tasks' runtime fields (`remaining_time`, `next_release`,
  `absolute_deadline`) are an `array<Runtime>` that the loops of
  `Simulator` update in place.
- The static parameters are a `seq<Task>` with the same indices.
- The output is a trace: a sequence of `Entry` values.
  - `Run(t, i)` is a task running at tick `t`; `Idle(t)` is an idle tick.
  - `Miss(t, selected, missed)` is a tick that stops the run.
  - `Boundary(t, lastRan, missed)` is the boundary tick.

Every method in `Simulator` is proved equal to a function in `Dispatch`:
`Tick` for one tick, `Ticks`/`MainRun` for the main loop, `Finish` for the
boundary tick and `Simulation` for a whole run. The properties of the
simulation are proved about those functions in `DispatchProofs`.
`Scheduler` puts the pieces together as `schedule_rm` and `schedule_edf`
without their text output. `ScenarioSteps`, `ScenarioData` and `Scenarios`
work out whole runs on four small task sets.

Where the intended behaviour and the code differ, the model follows the
code:

- The RM verdict header (`SCHEDULABLE` / `NOT SCHEDULABLE`) is written only
  inside the branch where the utilization-bound test fails.
  `Scheduler.RmReport` therefore has no header when the bound test passes.

Source quirks that the model keeps:

- The boundary entry names the task that ran at `t = hyperperiod - 1`, and
  no task (`None`) when that tick was idle (`Dispatch.LastRan`). The source
  then prints its `name` buffer, which is written only at that tick and is
  otherwise still the empty string.
- Selection happens before miss detection, so a `Miss` entry can name as
  selected a task that is itself in the miss list
  (`Scenarios.MissWhileSelected`).
- The RM reset does not touch `absolute_deadline`.
  `DispatchProofs.SimulationIgnoresLeftoverState` proves that the leftover
  value never affects the trace.
- A task is released only when `t == next_release`, and `next_release`
  moves on by one period only when an instance completes (MP2.c:196-198).
  An instance that is still pending therefore keeps its own past release
  time, so the release phase never overwrites it
  (`DispatchProofs.MainRunReleasedBefore`). Once its deadline has passed,
  the tick reports it as missed (`DispatchProofs.PendingPastDeadlineIsReported`).
  With deadline equal to period, the miss is reported at the tick of the
  next release. `Scenarios.EdfOverloaded` shows an overloaded EDF set
  (utilization 7/6) with no miss in the main loop, because the one late
  instance, released at 4, has its deadline 6 exactly on the horizon. The
  boundary tick reports it.
- With a deadline longer than the period, an instance still running when
  its next release is due blocks that release. When the instance completes,
  `next_release` is set to the release time that has already passed, so the
  task is never released again and no miss is reported
  (`Scenarios.LateCompletionStopsReleases`).

## Model

| member | source | states |
|---|---|---|
| NumberTheory.GcdDividesBoth | MP2.c:38-40 | for `a > 0`, `gcd(a, b)` is positive and divides both `a` and `b` |
| NumberTheory.GcdIsGreatest | MP2.c:38-40 | every common divisor of `a` and `b` divides `gcd(a, b)` |
| NumberTheory.Bezout | MP2.c:38-40 | returns coefficients `x, y` with `a*x + b*y == gcd(a, b)`, following Euclid's recursion |
| NumberTheory.LcmIsCommonMultiple | MP2.c:43-45 | for positive `a, b`, `lcm(a, b)` is positive and a multiple of both |
| NumberTheory.LcmTimesGcd | MP2.c:43-45 | `lcm(a, b) * gcd(a, b) == a * b`: the division in `lcm` is exact |
| NumberTheory.LcmDividesCommonMultiple | MP2.c:43-45 | `lcm(a, b)` divides every common multiple of `a` and `b` |
| NumberTheory.Gcd | MP2.c:38-40 | Euclid's recursion `gcd(a, 0) = a`, `gcd(a, b) = gcd(b, a % b)` on naturals |
| NumberTheory.Lcm | MP2.c:43-45 | `a * b / gcd(a, b)` for `a > 0`, in unbounded arithmetic |
| Horizon.LcmPrefix | MP2.c:99-105 | the fold over the first `k` periods stays positive |
| Horizon.Hyperperiod | MP2.c:99-105 | the fold of `lcm` over all periods, seeded with the first task's period |
| Horizon.LcmPrefixDividesAll | MP2.c:99-105 | every period folded so far divides the accumulated value |
| Horizon.LcmPrefixDividesCommonMultiple | MP2.c:99-105 | the fold divides every common multiple of the periods folded so far |
| Horizon.HyperperiodDividesAll | MP2.c:99-105 | the hyperperiod of a non-empty set with positive periods is positive and every period divides it |
| Horizon.HyperperiodIsLeast | MP2.c:99-105 | the hyperperiod divides, and so is at most, every positive common multiple of the periods |
| Horizon.ComputeHyperperiod | MP2.c:236-241 | the fold loop (the same in both schedulers) returns the hyperperiod: positive, and every period divides it |
| TaskModel.HigherPriority | MP2.c:76-77 | task `j` has priority over task `i` when its period is shorter, or equal and `j` comes first |
| ResponseTime.CeilDiv | MP2.c:78 | `q` is the exact ceiling of `a / b`: `(q - 1) * b < a <= q * b` |
| ResponseTime.InterferenceUpTo | MP2.c:75-82 | the interference sum over the first `k` tasks: `ceil(R / period_j) * wcet_j` for each higher-priority `j` (shorter period, or equal period and lower index) |
| ResponseTime.Demand | MP2.c:75-85 | the next value of the iteration: `wcet_i` plus the interference over all tasks |
| ResponseTime.InterferenceMonotone | MP2.c:75-82 | the interference sum is monotone in the candidate response time |
| ResponseTime.InterferenceNonNegative | MP2.c:75-82 | the interference sum is non-negative for a non-negative candidate |
| ResponseTime.DemandMonotone | MP2.c:85 | the right-hand side `wcet_i + interference(R)` is monotone in `R` |
| ResponseTime.ResponseFrom | MP2.c:70-91 | the loop continued from the current value `R`: -1 when the next value passes the deadline, `R` when the next value equals it, otherwise the loop continued from the next value |
| ResponseTime.ResponseTime | MP2.c:65-93 | `calculate_response_time`: the loop started at `R = wcet_i` |
| ResponseTime.ResponseFromBelowFixedPoint | MP2.c:70-91 | the iteration started below a fixed point `fp` ends at or below `fp`, or fails only if `fp` exceeds the deadline |
| ResponseTime.ResponseFromIsFixedPoint | MP2.c:70-91 | a non-failing iteration ends at a fixed point of the recurrence within the deadline, no lower than its start |
| ResponseTime.ResponseTimeCharacterization | MP2.c:65-93 | the response time is -1 iff no `x` in `[wcet_i, deadline_i]` is a fixed point; otherwise it is the least such fixed point |
| ResponseTime.CalculateResponseTime | MP2.c:65-93 | the loop terminates (decreasing `deadline - previous`) and returns the response time: -1, or `R` with `wcet_i <= R <= deadline_i` and `R == wcet_i + sum ceil(R/period_j) * wcet_j` over the higher-priority tasks |
| ResponseTime.PassesRta | MP2.c:115-124 | the exact test: at least one task, and no task's response time is -1 |
| ResponseTime.PassesRtaIffFixedPoints | MP2.c:115-124 | the exact test passes iff the set is non-empty and every task's recurrence has a fixed point between its WCET and its deadline |
| ResponseTime.RtaVerdict | MP2.c:115-124 | the verdict loop returns true iff `task_count >= 1` and no task's response time is -1 |
| Dispatch.Reset | MP2.c:135-138 | before a run every task has cost 0 and next release at its phase; RM keeps the old absolute deadline, EDF (MP2.c:253-257) sets it to `phase + deadline` |
| Dispatch.Released | MP2.c:146-151 | the release phase: a task whose next release is `t` gets cost `wcet` and absolute deadline `t + deadline`; every other task is unchanged |
| Dispatch.RmPickUpTo | MP2.c:154-160 | the RM selection loop over the first `k` tasks: a pending task replaces the choice only when its period is strictly shorter; the result, if any, is a pending task below `k` |
| Dispatch.EdfPickUpTo | MP2.c:273-282 | the EDF selection loop over the first `k` tasks: a pending task replaces the choice when its absolute deadline is earlier, or equal with an earlier next release; the result, if any, is a pending task below `k` |
| Dispatch.Pick | MP2.c:154-160 | the selection of the tick: the RM fold over all tasks, or for EDF the EDF fold (MP2.c:273-282); the result, if any, is a pending task |
| Dispatch.MissList | MP2.c:163-170 | the tasks with `remaining > 0 && t >= absolute_deadline`, in index order |
| Dispatch.DropMissed | MP2.c:163-170 | the miss phase sets the cost of every missing task to 0 and changes nothing else |
| Dispatch.Executed | MP2.c:196-199 | the selected task's cost goes down by one; when it reaches 0 its next release moves on by one period |
| Dispatch.Tick | MP2.c:146-202 | one tick: release, selection, miss detection; a non-empty miss list gives a `Miss` entry and stops, else `Idle` or `Run` of the selected task, which then executes |
| Dispatch.Step | MP2.c:141-202 | nothing once the run has stopped, otherwise one tick appended to the trace |
| Dispatch.Ticks | MP2.c:141-203 | the ticks `t .. t+n-1`, one step each |
| Dispatch.MainRun | MP2.c:141-203 | the main loop: the ticks `0 .. hyperperiod-1` from the reset state |
| Dispatch.BoundaryList | MP2.c:206-213 | the tasks with `absolute_deadline == hyperperiod && remaining > 0`, in index order |
| Dispatch.Finish | MP2.c:205-229 | after a main loop with no miss, one boundary entry when the boundary list is non-empty, naming the task that ran last; the state is unchanged |
| Dispatch.Simulation | MP2.c:134-229 | a whole run: reset, main loop, boundary tick |
| Dispatch.LastRan | MP2.c:193-195 | the `name` buffer printed by the boundary tick (MP2.c:221, 344): the task of the last entry when that entry is a run, otherwise none; EDF fills it at MP2.c:313-315 |
| DispatchProofs.TicksStayStopped | MP2.c:185-186 | once a run has stopped on a miss, further ticks leave its outcome unchanged |
| DispatchProofs.TicksSnoc | MP2.c:141 | the ticks `t .. t+n` are the ticks `t .. t+n-1` followed by one more step |
| DispatchProofs.MainTicksAdvance | MP2.c:141-202 | one more tick of a run that has not stopped appends that tick's entry and takes its new state |
| DispatchProofs.MainTicksStopped | MP2.c:185-186 | when the ticks from the start have stopped at tick `k`, every longer run gives the same outcome |
| DispatchProofs.RmPickUpToIsHighestPriority | MP2.c:154-160 | the RM fold over the first `k` tasks selects nothing iff none is pending, else a pending task with shortest period, lowest index among equal periods |
| DispatchProofs.RmSelection | MP2.c:154-160 | RM selection is idle iff no task is pending; otherwise it picks a pending task of minimal period, the lowest index among ties |
| DispatchProofs.EdfPickUpToIsEarliest | MP2.c:273-282 | the EDF fold over the first `k` tasks selects nothing iff none is pending, else the pending task first in the EDF order |
| DispatchProofs.EdfSelection | MP2.c:273-282 | EDF selection is idle iff no task is pending; otherwise it picks the pending task of minimal absolute deadline, then next release, then index |
| DispatchProofs.IndicesExact | MP2.c:163-170 | a list of tasks built by the index loops holds exactly the qualifying indices, strictly increasing |
| DispatchProofs.MissListExact | MP2.c:163-170 | the miss list holds exactly the tasks with `remaining > 0 && t >= absolute_deadline`, each once, in index order |
| DispatchProofs.BoundaryListExact | MP2.c:206-213 | the boundary list holds exactly the tasks with `absolute_deadline == hyperperiod && remaining > 0`, in index order |
| DispatchProofs.TickEffect | MP2.c:146-202 | release sets cost `wcet` and deadline `t + deadline` for tasks due at `t`; the tick stops iff a released task misses, reporting the selection and the misses and zeroing the missing costs; otherwise only the selected task changes, cost down by one, next release up one period exactly when the cost reaches 0 |
| DispatchProofs.TickKeepsCostBounded | MP2.c:146-199 | a tick keeps `0 <= remaining <= wcet` for every task |
| DispatchProofs.StepKeepsCostBounded | MP2.c:141-202 | one step of the main loop keeps the cost bound |
| DispatchProofs.TicksKeepCostBounded | MP2.c:141-203 | any number of ticks keeps the cost bound |
| DispatchProofs.SimulationKeepsCostBounded | MP2.c:135-229 | `0 <= remaining <= wcet` holds after the reset, after every tick of the main loop and at the end of a run, from any leftover state |
| DispatchProofs.ReleaseSparesPending | MP2.c:146-151 | when every pending instance was released before `t`, the release phase of tick `t` leaves every pending instance unchanged |
| DispatchProofs.TickKeepsReleasedBefore | MP2.c:146-199 | a tick keeps "every pending instance was released before the current tick", since `next_release` moves only on completion |
| DispatchProofs.StepKeepsReleasedBefore | MP2.c:141-202 | one step of the main loop keeps that property |
| DispatchProofs.TicksKeepReleasedBefore | MP2.c:141-203 | any number of ticks keeps that property |
| DispatchProofs.MainRunReleasedBefore | MP2.c:135-203 | after `k` ticks from the reset, every pending instance was released before `k`, so the release phase at `k` does not overwrite it |
| DispatchProofs.PendingPastDeadlineIsReported | MP2.c:146-187 | a pending instance whose absolute deadline is not after `t` is reported in the `Miss` entry of tick `t`, which stops the run |
| DispatchProofs.StepShape | MP2.c:141-202 | one step keeps the shape of the trace: one plain entry per tick, or plain entries then a single final miss entry |
| DispatchProofs.TicksShape | MP2.c:141-203 | any number of ticks keeps that shape |
| DispatchProofs.MainRunShape | MP2.c:141-203 | a main loop of `k` ticks emits one plain entry per tick in order, or stops with its only miss entry at the tick it stopped |
| DispatchProofs.FinishShape | MP2.c:205-229 | after a main loop with no miss, a boundary entry is appended iff some pending instance is due at the horizon; it lists exactly those tasks, with the task that ran last; after a miss nothing is appended |
| DispatchProofs.SimulationShape | MP2.c:141-229 | a run with no miss has one entry per tick `0..hyperperiod-1` in order, plus a boundary entry iff some task has `absolute_deadline == hyperperiod && remaining > 0`, listing exactly those tasks in index order with the task run at `hyperperiod-1`; a run with a miss ends at that entry, with no boundary entry |
| DispatchProofs.RmPickAgree | MP2.c:154-160 | RM selection reads only what `Agree` keeps: agreeing states select the same task |
| DispatchProofs.EdfPickAgree | MP2.c:273-282 | EDF selection reads only what `Agree` keeps: agreeing states select the same task |
| DispatchProofs.IndicesAgree | MP2.c:163-170 | index lists built from predicates that agree on every task are equal |
| DispatchProofs.TickAgree | MP2.c:141-202 | states that agree on costs, releases and the deadlines of pending tasks produce the same entry, the same stop flag and agreeing successors |
| DispatchProofs.StepAgree | MP2.c:141-202 | agreeing outcomes stay agreeing after one step |
| DispatchProofs.TicksAgree | MP2.c:141-203 | agreeing outcomes stay agreeing after any number of ticks |
| DispatchProofs.SimulationIgnoresLeftoverState | MP2.c:135-138 | the trace of a run does not depend on the runtime state left before the reset (the RM reset keeps `absolute_deadline`); for EDF the whole outcome is the same |
| Simulator.ResetRuntime | MP2.c:135-138 | the reset loop: RM sets cost 0 and next release to the phase and keeps the deadline; EDF (MP2.c:253-257) also sets the deadline to `phase + deadline` |
| Simulator.ReleaseDue | MP2.c:146-151 | the release loop leaves the array equal to `Released` of its old contents |
| Simulator.SelectRm | MP2.c:154-160 | the RM selection loop returns the RM fold over all tasks |
| Simulator.SelectEdf | MP2.c:273-282 | the EDF selection loop returns the EDF fold over all tasks |
| Simulator.DetectMisses | MP2.c:163-170 | the miss loop returns the miss list and zeroes exactly the missing tasks' costs |
| Simulator.HorizonDue | MP2.c:206-213 | the boundary loop returns the boundary list of the array |
| Simulator.RunTick | MP2.c:141-202 | one pass of the loop body updates the array and returns the entry and stop flag exactly as `Tick` describes |
| Simulator.MainLoop | MP2.c:141-203 | the tick loop returns the trace, final array and stop flag of `MainRun`, and, when it did not stop, the task that ran at the last tick |
| Simulator.Simulate | MP2.c:134-229 | reset, main loop and boundary tick produce the trace and final array of `Simulation` (EDF: MP2.c:252-352) |
| Scheduler.RmReport | MP2.c:96-231 | the RM report: no header when the bound test passes, else the exact-test verdict and the hyperperiod; then the trace of the RM run |
| Scheduler.EdfReport | MP2.c:234-355 | the EDF report: the utilization verdict and the hyperperiod, then the trace of the EDF run |
| Scheduler.ScheduleRm | MP2.c:96-231 | the RM report: a header with the exact-test verdict and the hyperperiod only when the bound test fails, then the simulated trace |
| Scheduler.ScheduleEdf | MP2.c:234-355 | the EDF report: a header with the utilization verdict and the hyperperiod, then the simulated trace |
| ScenarioSteps.QuietTick | MP2.c:163-202 | a tick in which no released task misses is decided by the selection alone |
| ScenarioSteps.QuietRun | MP2.c:141-203 | ticks with no miss accumulate their entries, in order, into the trace |
| ScenarioSteps.QuietScenario | MP2.c:134-229 | a run whose ticks all run without a miss ends with those entries and then the boundary tick |
| ScenarioData.RmTicks | MP2.c:141-203 | each of the 12 ticks of the two-task RM run produces the listed entry and state |
| ScenarioData.EdfTicks | MP2.c:260-325 | each of the 6 ticks of the two-task EDF run produces the listed entry and state |
| ScenarioData.MissLoop | MP2.c:141-203 | the first two ticks of the one-task RM run run the task with no miss |
| ScenarioData.LateTicks | MP2.c:141-203 | each of the 8 ticks of the RM run with tasks (period 2, WCET 3, deadline 4) and (period 8, WCET 1, deadline 8) produces the listed entry and state |
| Scenarios.RmTwoTasksAnalysis | MP2.c:65-124 | tasks (period 4, WCET 1) and (period 6, WCET 2) have hyperperiod 12, response times 1 and 3, and pass the exact test |
| Scenarios.RmTwoTasks | MP2.c:134-229 | that RM run has idle ticks at 3, 5 and 9-11 and no boundary entry |
| Scenarios.EdfBoundaryTick | MP2.c:327-352 | at the horizon 6 only the first task is pending with deadline 6, so the boundary entry lists it, with the second task as last run |
| Scenarios.EdfOverloaded | MP2.c:252-352 | the EDF set (2, 1, 2) and (3, 2, 3), utilization 7/6, has no miss in the main loop; its only miss is the boundary entry at 6 |
| Scenarios.MissTick | MP2.c:163-187 | a task selected at tick 2 is also the one that misses there, and its cost is dropped |
| Scenarios.MissWhileSelected | MP2.c:141-187 | a task with WCET 3 and deadline 2 stops the run at tick 2 with a miss entry that names it as selected and as missed; nothing follows |
| Scenarios.LateCompletionStopsReleases | MP2.c:141-229 | in that run the first task runs at 0-2, completes with next release 2, is never released again, and ticks 4-7 are idle with no miss and no boundary entry |

## Left out

- `parse_input` and `main`: file and argument handling. The scenarios start
  from the runtime fields the parser initializes (`ScenarioSteps.Parsed`).
- The utilization and the bounds (`calculate_utilization`,
  `check_schedulability_rm`, the `pow` bound, `utilization <= 1.0`): these
  are computed in floating point. The outcome of the RM bound test
  (`boundTestPassed`) and the EDF verdict (`utilizationOk`) are boolean
  inputs of `Scheduler`, and the `U` / `UB` figures of the header are not
  modelled.
- Text output: `fprintf`, the task names, and the `strcat`/`strtok` miss
  strings. The undersized `name[3]` buffer of `schedule_edf` is left out
  for the same reason. Tasks are identified by index, and the trace is a
  sequence of `Entry` values.
- C `int` overflow (in `a * b`, in the interference
  sums, in `t + deadline`) is not modelled, because the model uses
  unbounded integers. `ceil` on a `double` quotient is modelled as exact
  integer ceiling division.
- The closing of the output file after a miss is modelled as the run
  stopping.
- A task set with no tasks: the source reads `tasks[0].period`, so
  `schedule_rm` and `schedule_edf` require at least one task. Every period
  and WCET must be positive, which is the invariant of the task data.
