/** Four concrete task sets with the runtime state before every tick of
    their runs and the trace entries those ticks produce. */
module ScenarioData {

  import opened Options
  import opened TaskModel
  import opened Dispatch
  import opened ScenarioSteps

  // ---------------------------------------------------------------------
  // RM: T1 = (0, 4, 1, 4) and T2 = (0, 6, 2, 6), as (phase, period, wcet, deadline)

  function RmTasks(): seq<Task> {
    [Task(0, 4, 1, 4), Task(0, 6, 2, 6)]
  }

  /** The runtime state before each tick without a miss, and after the last. */
  function RmStates(): (s: seq<seq<Runtime>>)
    ensures |s| == 13 && forall j :: 0 <= j < |s| ==> |s[j]| == 2
  {
    [ [Runtime(0, 0, 4), Runtime(0, 0, 6)],
      [Runtime(0, 4, 4), Runtime(2, 0, 6)],
      [Runtime(0, 4, 4), Runtime(1, 0, 6)],
      [Runtime(0, 4, 4), Runtime(0, 6, 6)],
      [Runtime(0, 4, 4), Runtime(0, 6, 6)],
      [Runtime(0, 8, 8), Runtime(0, 6, 6)],
      [Runtime(0, 8, 8), Runtime(0, 6, 6)],
      [Runtime(0, 8, 8), Runtime(1, 6, 12)],
      [Runtime(0, 8, 8), Runtime(0, 12, 12)],
      [Runtime(0, 12, 12), Runtime(0, 12, 12)],
      [Runtime(0, 12, 12), Runtime(0, 12, 12)],
      [Runtime(0, 12, 12), Runtime(0, 12, 12)],
      [Runtime(0, 12, 12), Runtime(0, 12, 12)] ]
  }

  function RmEntries(): (e: seq<Entry>)
    ensures |e| == 12
  {
    [Run(0, 0), Run(1, 1), Run(2, 1), Idle(3), Run(4, 0), Idle(5), Run(6, 1), Run(7, 1), Run(8, 0), Idle(9), Idle(10), Idle(11)]
  }

  /** Released: [Runtime(1, 0, 4), Runtime(2, 0, 6)]; RM runs task 0. */
  lemma RmTick0()
    ensures Tick(RM, RmTasks(), RmStates()[0], 0) == TickResult(RmEntries()[0], RmStates()[1], false)
  {
  }

  /** Released: [Runtime(0, 4, 4), Runtime(2, 0, 6)]; RM runs task 1. */
  lemma RmTick1()
    ensures Tick(RM, RmTasks(), RmStates()[1], 1) == TickResult(RmEntries()[1], RmStates()[2], false)
  {
  }

  /** Released: [Runtime(0, 4, 4), Runtime(1, 0, 6)]; RM runs task 1. */
  lemma RmTick2()
    ensures Tick(RM, RmTasks(), RmStates()[2], 2) == TickResult(RmEntries()[2], RmStates()[3], false)
  {
  }

  /** Released: [Runtime(0, 4, 4), Runtime(0, 6, 6)]; nothing is pending, so the tick is idle. */
  lemma RmTick3()
    ensures Tick(RM, RmTasks(), RmStates()[3], 3) == TickResult(RmEntries()[3], RmStates()[4], false)
  {
  }

  /** Released: [Runtime(1, 4, 8), Runtime(0, 6, 6)]; RM runs task 0. */
  lemma RmTick4()
    ensures Tick(RM, RmTasks(), RmStates()[4], 4) == TickResult(RmEntries()[4], RmStates()[5], false)
  {
  }

  /** Released: [Runtime(0, 8, 8), Runtime(0, 6, 6)]; nothing is pending, so the tick is idle. */
  lemma RmTick5()
    ensures Tick(RM, RmTasks(), RmStates()[5], 5) == TickResult(RmEntries()[5], RmStates()[6], false)
  {
  }

  /** Released: [Runtime(0, 8, 8), Runtime(2, 6, 12)]; RM runs task 1. */
  lemma RmTick6()
    ensures Tick(RM, RmTasks(), RmStates()[6], 6) == TickResult(RmEntries()[6], RmStates()[7], false)
  {
  }

  /** Released: [Runtime(0, 8, 8), Runtime(1, 6, 12)]; RM runs task 1. */
  lemma RmTick7()
    ensures Tick(RM, RmTasks(), RmStates()[7], 7) == TickResult(RmEntries()[7], RmStates()[8], false)
  {
  }

  /** Released: [Runtime(1, 8, 12), Runtime(0, 12, 12)]; RM runs task 0. */
  lemma RmTick8()
    ensures Tick(RM, RmTasks(), RmStates()[8], 8) == TickResult(RmEntries()[8], RmStates()[9], false)
  {
  }

  /** Released: [Runtime(0, 12, 12), Runtime(0, 12, 12)]; nothing is pending, so the tick is idle. */
  lemma RmTick9()
    ensures Tick(RM, RmTasks(), RmStates()[9], 9) == TickResult(RmEntries()[9], RmStates()[10], false)
  {
  }

  /** Released: [Runtime(0, 12, 12), Runtime(0, 12, 12)]; nothing is pending, so the tick is idle. */
  lemma RmTick10()
    ensures Tick(RM, RmTasks(), RmStates()[10], 10) == TickResult(RmEntries()[10], RmStates()[11], false)
  {
  }

  /** Released: [Runtime(0, 12, 12), Runtime(0, 12, 12)]; nothing is pending, so the tick is idle. */
  lemma RmTick11()
    ensures Tick(RM, RmTasks(), RmStates()[11], 11) == TickResult(RmEntries()[11], RmStates()[12], false)
  {
  }

  /** Every tick of the RM run's main loop, none with a miss. */
  lemma RmTicks()
    ensures forall j :: 0 <= j < 12 ==>
      Tick(RM, RmTasks(), RmStates()[j], j) == TickResult(RmEntries()[j], RmStates()[j + 1], false)
  {
    var tasks, states, entries := RmTasks(), RmStates(), RmEntries();
    forall j | 0 <= j < 12
      ensures Tick(RM, tasks, states[j], j) == TickResult(entries[j], states[j + 1], false)
    {
      if j == 0 {
        RmTick0();
      } else if j == 1 {
        RmTick1();
      } else if j == 2 {
        RmTick2();
      } else if j == 3 {
        RmTick3();
      } else if j == 4 {
        RmTick4();
      } else if j == 5 {
        RmTick5();
      } else if j == 6 {
        RmTick6();
      } else if j == 7 {
        RmTick7();
      } else if j == 8 {
        RmTick8();
      } else if j == 9 {
        RmTick9();
      } else if j == 10 {
        RmTick10();
      } else {
        RmTick11();
      }
    }
  }

  lemma RmStart()
    ensures Reset(RmTasks(), Parsed(RmTasks()), RM) == RmStates()[0]
  {
  }

  // ---------------------------------------------------------------------
  // EDF: T1 = (0, 2, 1, 2) and T2 = (0, 3, 2, 3)

  function EdfTasks(): seq<Task> {
    [Task(0, 2, 1, 2), Task(0, 3, 2, 3)]
  }

  /** The runtime state before each tick without a miss, and after the last. */
  function EdfStates(): (s: seq<seq<Runtime>>)
    ensures |s| == 7 && forall j :: 0 <= j < |s| ==> |s[j]| == 2
  {
    [ [Runtime(0, 0, 2), Runtime(0, 0, 3)],
      [Runtime(0, 2, 2), Runtime(2, 0, 3)],
      [Runtime(0, 2, 2), Runtime(1, 0, 3)],
      [Runtime(1, 2, 4), Runtime(0, 3, 3)],
      [Runtime(0, 4, 4), Runtime(2, 3, 6)],
      [Runtime(1, 4, 6), Runtime(1, 3, 6)],
      [Runtime(1, 4, 6), Runtime(0, 6, 6)] ]
  }

  function EdfEntries(): (e: seq<Entry>)
    ensures |e| == 6
  {
    [Run(0, 0), Run(1, 1), Run(2, 1), Run(3, 0), Run(4, 1), Run(5, 1)]
  }

  /** Released: [Runtime(1, 0, 2), Runtime(2, 0, 3)]; EDF runs task 0. */
  lemma EdfTick0()
    ensures Tick(EDF, EdfTasks(), EdfStates()[0], 0) == TickResult(EdfEntries()[0], EdfStates()[1], false)
  {
  }

  /** Released: [Runtime(0, 2, 2), Runtime(2, 0, 3)]; EDF runs task 1. */
  lemma EdfTick1()
    ensures Tick(EDF, EdfTasks(), EdfStates()[1], 1) == TickResult(EdfEntries()[1], EdfStates()[2], false)
  {
  }

  /** Released: [Runtime(1, 2, 4), Runtime(1, 0, 3)]; EDF runs task 1. */
  lemma EdfTick2()
    ensures Tick(EDF, EdfTasks(), EdfStates()[2], 2) == TickResult(EdfEntries()[2], EdfStates()[3], false)
  {
  }

  /** Released: [Runtime(1, 2, 4), Runtime(2, 3, 6)]; EDF runs task 0. */
  lemma EdfTick3()
    ensures Tick(EDF, EdfTasks(), EdfStates()[3], 3) == TickResult(EdfEntries()[3], EdfStates()[4], false)
  {
  }

  /** Released: [Runtime(1, 4, 6), Runtime(2, 3, 6)]; EDF runs task 1. */
  lemma EdfTick4()
    ensures Tick(EDF, EdfTasks(), EdfStates()[4], 4) == TickResult(EdfEntries()[4], EdfStates()[5], false)
  {
  }

  /** Released: [Runtime(1, 4, 6), Runtime(1, 3, 6)]; EDF runs task 1. */
  lemma EdfTick5()
    ensures Tick(EDF, EdfTasks(), EdfStates()[5], 5) == TickResult(EdfEntries()[5], EdfStates()[6], false)
  {
  }

  /** Every tick of the EDF run's main loop, none with a miss. */
  lemma EdfTicks()
    ensures forall j :: 0 <= j < 6 ==>
      Tick(EDF, EdfTasks(), EdfStates()[j], j) == TickResult(EdfEntries()[j], EdfStates()[j + 1], false)
  {
    var tasks, states, entries := EdfTasks(), EdfStates(), EdfEntries();
    forall j | 0 <= j < 6
      ensures Tick(EDF, tasks, states[j], j) == TickResult(entries[j], states[j + 1], false)
    {
      if j == 0 {
        EdfTick0();
      } else if j == 1 {
        EdfTick1();
      } else if j == 2 {
        EdfTick2();
      } else if j == 3 {
        EdfTick3();
      } else if j == 4 {
        EdfTick4();
      } else {
        EdfTick5();
      }
    }
  }

  lemma EdfStart()
    ensures Reset(EdfTasks(), Parsed(EdfTasks()), EDF) == EdfStates()[0]
  {
  }

  // ---------------------------------------------------------------------
  // RM: one task T = (0, 4, 3, 2) whose cost exceeds its deadline

  function MissTasks(): seq<Task> {
    [Task(0, 4, 3, 2)]
  }

  /** The runtime state before each tick without a miss, and after the last.
      Tick 0 releases [Runtime(3, 0, 2)] and runs task 0; tick 1 runs task 0
      again, from [Runtime(2, 0, 2)]. */
  function MissStates(): (s: seq<seq<Runtime>>)
    ensures |s| == 3 && forall j :: 0 <= j < |s| ==> |s[j]| == 1
  {
    [ [Runtime(0, 0, 2)],
      [Runtime(2, 0, 2)],
      [Runtime(1, 0, 2)] ]
  }

  function MissEntries(): (e: seq<Entry>)
    ensures |e| == 2
  {
    [Run(0, 0), Run(1, 0)]
  }

  /** The first two ticks of the one-task run. */
  lemma MissLoop(k: nat)
    requires k <= 2
    ensures Ticks(RM, MissTasks(), Outcome([], MissStates()[0], false), 0, k) == Outcome(MissEntries()[..k], MissStates()[k], false)
  {
  }

  lemma MissStart()
    ensures Reset(MissTasks(), Parsed(MissTasks()), RM) == MissStates()[0]
  {
  }

  // ---------------------------------------------------------------------
  // RM: T1 = (0, 2, 3, 4), whose deadline is longer than its period, and
  // T2 = (0, 8, 1, 8)

  function LateTasks(): seq<Task> {
    [Task(0, 2, 3, 4), Task(0, 8, 1, 8)]
  }

  /** The runtime state before each tick, and after the last.
      - Tick 0 releases [Runtime(3, 0, 4), Runtime(1, 0, 8)]; RM runs task 0.
      - Ticks 1 and 2 run task 0, which completes at 2 with its next release
        set to 2.
      - Tick 3 does not release task 0 again; RM runs task 1.
      - Ticks 4-7: nothing is pending, so each tick is idle. */
  function LateStates(): (s: seq<seq<Runtime>>)
    ensures |s| == 9 && forall j :: 0 <= j < |s| ==> |s[j]| == 2
  {
    [ [Runtime(0, 0, 4), Runtime(0, 0, 8)],
      [Runtime(2, 0, 4), Runtime(1, 0, 8)],
      [Runtime(1, 0, 4), Runtime(1, 0, 8)],
      [Runtime(0, 2, 4), Runtime(1, 0, 8)],
      [Runtime(0, 2, 4), Runtime(0, 8, 8)],
      [Runtime(0, 2, 4), Runtime(0, 8, 8)],
      [Runtime(0, 2, 4), Runtime(0, 8, 8)],
      [Runtime(0, 2, 4), Runtime(0, 8, 8)],
      [Runtime(0, 2, 4), Runtime(0, 8, 8)] ]
  }

  function LateEntries(): (e: seq<Entry>)
    ensures |e| == 8
  {
    [Run(0, 0), Run(1, 0), Run(2, 0), Run(3, 1), Idle(4), Idle(5), Idle(6), Idle(7)]
  }

  /** Every tick of the run's main loop, none with a miss. */
  lemma LateTicks()
    ensures forall j :: 0 <= j < 8 ==>
      Tick(RM, LateTasks(), LateStates()[j], j) == TickResult(LateEntries()[j], LateStates()[j + 1], false)
  {
  }

  lemma LateStart()
    ensures Reset(LateTasks(), Parsed(LateTasks()), RM) == LateStates()[0]
  {
  }

}
