/** Whole runs on four small task sets: a schedulable RM set, an overloaded
    EDF set whose only miss shows up at the horizon, an RM task that is
    selected in the very tick it misses, and an RM set with a deadline longer
    than its period, whose late completion stops its releases. */
module Scenarios {

  import opened Options
  import opened NumberTheory
  import opened TaskModel
  import opened Horizon
  import opened ResponseTime
  import opened Dispatch
  import opened DispatchProofs
  import opened ScenarioSteps
  import opened ScenarioData

  /** The two-task RM set has hyperperiod 12, and both tasks pass the exact
      test, with response times 1 and 3. */
  lemma RmTwoTasksAnalysis()
    ensures Hyperperiod(RmTasks()) == 12
    ensures ResponseTime.ResponseTime(RmTasks(), 0) == 1 && ResponseTime.ResponseTime(RmTasks(), 1) == 3
    ensures PassesRta(RmTasks())
  {
  }

  lemma RmNothingDue(hyperperiod: nat)
    requires hyperperiod == 12
    ensures BoundaryList(RmStates()[hyperperiod], hyperperiod) == []
  {
  }

  /** The two-task RM set over its hyperperiod: the trace has idle ticks at
      3, 5 and 9-11, and there is no boundary tick because nothing is pending
      at the horizon. */
  lemma RmTwoTasks(hyperperiod: nat)
    requires hyperperiod == Hyperperiod(RmTasks())
    ensures hyperperiod == 12
    ensures Simulation(RM, RmTasks(), Parsed(RmTasks()), hyperperiod)
         == Outcome(RmEntries(), RmStates()[12], false)
  {
    RmTwoTasksAnalysis();
    RmStart();
    RmTicks();
    QuietScenario(RM, RmTasks(), Parsed(RmTasks()), hyperperiod, RmStates(), RmEntries());
    RmNothingDue(hyperperiod);
  }

  lemma EdfHyperperiod()
    ensures Hyperperiod(EdfTasks()) == 6
  {
  }

  /** At the horizon only T1 is pending with its deadline there, and T2 ran
      last. */
  lemma EdfBoundaryTick(hyperperiod: nat)
    requires hyperperiod == 6
    ensures Finish(Outcome(EdfEntries(), EdfStates()[hyperperiod], false), hyperperiod)
         == Outcome(EdfEntries() + [Boundary(6, Some(1), [0])], EdfStates()[6], false)
  {
    IndicesSingle(EdfStates()[hyperperiod], r => DueAtHorizon(r, hyperperiod), 2, 0);
    assert LastRan(EdfEntries()) == Some(1);
  }

  /** The two-task EDF set has hyperperiod 6 and utilization 1/2 + 2/3 > 1,
      yet no tick of the main loop detects a miss: the only miss is the one
      the boundary tick reports for T1, whose instance released at 4 is still
      pending at 6. */
  lemma EdfOverloaded(hyperperiod: nat)
    requires hyperperiod == Hyperperiod(EdfTasks())
    ensures hyperperiod == 6
    ensures Simulation(EDF, EdfTasks(), Parsed(EdfTasks()), hyperperiod)
         == Outcome(EdfEntries() + [Boundary(6, Some(1), [0])], EdfStates()[6], false)
  {
    EdfHyperperiod();
    EdfStart();
    EdfTicks();
    QuietScenario(EDF, EdfTasks(), Parsed(EdfTasks()), hyperperiod, EdfStates(), EdfEntries());
    EdfBoundaryTick(hyperperiod);
  }

  /** Tick 2 of the one-task run: the task is selected and is also the one
      that misses, and its cost is dropped. */
  lemma MissTick()
    ensures Tick(RM, MissTasks(), MissStates()[2], 2)
         == TickResult(Miss(2, Some(0), [0]), [Runtime(0, 0, 2)], true)
  {
    var tasks, released := MissTasks(), [Runtime(1, 0, 2)];
    assert Released(tasks, MissStates()[2], 2) == released;
    assert Pick(RM, tasks, released) == Some(0);
    IndicesSingle(released, r => MissesAt(r, 2), 1, 0);
    assert DropMissed(released, 2) == [Runtime(0, 0, 2)];
  }

  /** A task whose cost exceeds its deadline: the run stops at tick 2, before
      the horizon 4, with the task reported both as selected and as missed. */
  lemma MissWhileSelected(hyperperiod: nat)
    requires hyperperiod == Hyperperiod(MissTasks())
    ensures hyperperiod == 4
    ensures Simulation(RM, MissTasks(), Parsed(MissTasks()), hyperperiod)
         == Outcome(MissEntries() + [Miss(2, Some(0), [0])], [Runtime(0, 0, 2)], true)
  {
    var tasks := MissTasks();
    var start := Outcome([], MissStates()[0], false);
    MissStart();
    MissLoop(2);
    assert MissEntries()[..2] == MissEntries();
    MissTick();
    var stop := Outcome(MissEntries() + [Miss(2, Some(0), [0])], [Runtime(0, 0, 2)], true);
    MainTicksAdvance(RM, tasks, start, 2, Outcome(MissEntries(), MissStates()[2], false),
                     TickResult(Miss(2, Some(0), [0]), [Runtime(0, 0, 2)], true));
    MainTicksStopped(RM, tasks, start, 3, hyperperiod, stop);
  }

  lemma LateHyperperiod()
    ensures Hyperperiod(LateTasks()) == 8
  {
  }

  lemma LateNothingDue(hyperperiod: nat)
    requires hyperperiod == 8
    ensures BoundaryList(LateStates()[hyperperiod], hyperperiod) == []
  {
  }

  /** A task whose instance outlives its period: T1's instance released at 0
      is still running at 2, when its next instance is due, so that release
      does not happen. It completes at 2 with its next release set to 2,
      which has already passed, so T1 is never released again. Ticks 4-7 are
      idle, and no miss is reported. */
  lemma LateCompletionStopsReleases(hyperperiod: nat)
    requires hyperperiod == Hyperperiod(LateTasks())
    ensures hyperperiod == 8
    ensures Simulation(RM, LateTasks(), Parsed(LateTasks()), hyperperiod)
         == Outcome(LateEntries(), LateStates()[8], false)
    ensures LateStates()[8][0].nextRelease == 2 && !Pending(LateStates()[8][0])
  {
    LateHyperperiod();
    LateStart();
    LateTicks();
    QuietScenario(RM, LateTasks(), Parsed(LateTasks()), hyperperiod, LateStates(), LateEntries());
    LateNothingDue(hyperperiod);
  }
}
