/** Building blocks for evaluating whole runs on concrete task sets tick by
    tick. */
module ScenarioSteps {

  import opened Options
  import opened TaskModel
  import opened Dispatch
  import opened DispatchProofs

  /** The initial runtime fields the parser gives a task: no pending cost,
      next release at the phase, absolute deadline equal to the relative one. */
  function Parsed(tasks: seq<Task>): (rs: seq<Runtime>)
    ensures |rs| == |tasks|
  {
    seq(|tasks|, i requires 0 <= i < |tasks| => Runtime(0, tasks[i].phase, tasks[i].deadline))
  }

  /** A tick in which nothing misses is decided by the selection alone. */
  lemma QuietTick(policy: Policy, tasks: seq<Task>, rs: seq<Runtime>, t: int,
                  released: seq<Runtime>, entry: Entry, next: seq<Runtime>)
    requires |rs| == |tasks| && Released(tasks, rs, t) == released
    requires forall j :: 0 <= j < |released| ==> !MissesAt(released[j], t)
    requires match Pick(policy, tasks, released)
             case None => entry == Idle(t) && next == released
             case Some(s) => entry == Run(t, s) && next == Executed(tasks, released, s)
    ensures Tick(policy, tasks, rs, t) == TickResult(entry, next, false)
  {
    IndicesNone(released, r => MissesAt(r, t), |released|);
    assert DropMissed(released, t) == released;
  }

  /** Ticks `0 .. k-1` that all run without a miss give the trace of their
      entries. */
  lemma {:induction false} QuietRun(policy: Policy, tasks: seq<Task>, states: seq<seq<Runtime>>, entries: seq<Entry>, k: nat)
    requires |states| == |entries| + 1 && k <= |entries|
    requires forall j :: 0 <= j < |states| ==> |states[j]| == |tasks|
    requires forall j :: 0 <= j < |entries| ==>
      Tick(policy, tasks, states[j], j) == TickResult(entries[j], states[j + 1], false)
    ensures Ticks(policy, tasks, Outcome([], states[0], false), 0, k) == Outcome(entries[..k], states[k], false)
  {
    if k > 0 {
      QuietRun(policy, tasks, states, entries, k - 1);
      var start, before := Outcome([], states[0], false), Outcome(entries[..k - 1], states[k - 1], false);
      assert Tick(policy, tasks, states[k - 1], k - 1) == TickResult(entries[k - 1], states[k], false);
      MainTicksAdvance(policy, tasks, start, k - 1, before, TickResult(entries[k - 1], states[k], false));
      assert entries[..k] == entries[..k - 1] + [entries[k - 1]];
    }
  }

  /** A run whose main loop follows the given ticks, none with a miss, ends
      in the boundary tick after the last of them. */
  lemma QuietScenario(policy: Policy, tasks: seq<Task>, rs0: seq<Runtime>, hyperperiod: nat,
                      states: seq<seq<Runtime>>, entries: seq<Entry>)
    requires |rs0| == |tasks| && |entries| == hyperperiod && |states| == hyperperiod + 1
    requires forall j :: 0 <= j < |states| ==> |states[j]| == |tasks|
    requires Reset(tasks, rs0, policy) == states[0]
    requires forall j :: 0 <= j < |entries| ==>
      Tick(policy, tasks, states[j], j) == TickResult(entries[j], states[j + 1], false)
    ensures Simulation(policy, tasks, rs0, hyperperiod) == Finish(Outcome(entries, states[hyperperiod], false), hyperperiod)
  {
    QuietRun(policy, tasks, states, entries, hyperperiod);
    assert entries[..hyperperiod] == entries;
  }
}
