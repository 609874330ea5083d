/** `schedule_rm` and `schedule_edf` without their text output: each computes
    the hyperperiod, produces the verdict header, and runs the simulation on
    the task array. The utilization figures are floating point and are not
    modelled; the outcome of the RM utilization-bound test and the EDF
    utilization test enter as booleans. */
module Scheduler {

  import opened Options
  import opened TaskModel
  import opened Horizon
  import opened ResponseTime
  import opened Dispatch
  import opened Simulator

  /** The verdict header: the verdict and the hyperperiod. */
  datatype Header = Header(schedulable: bool, hyperperiod: int)

  /** What one scheduler run writes: the header, when it writes one, and the
      trace. */
  datatype Report = Report(header: Option<Header>, trace: seq<Entry>)

  /** The RM report. The header is written only when the utilization-bound
      test fails, and then carries the outcome of the exact test. */
  function RmReport(tasks: seq<Task>, rs0: seq<Runtime>, boundTestPassed: bool): Report
    requires |tasks| >= 1 && ValidTaskSet(tasks) && |rs0| == |tasks|
  {
    var hyperperiod := Hyperperiod(tasks);
    Report(if boundTestPassed then None else Some(Header(PassesRta(tasks), hyperperiod)),
           Simulation(RM, tasks, rs0, hyperperiod).trace)
  }

  /** The EDF report: the header always carries the utilization verdict. */
  function EdfReport(tasks: seq<Task>, rs0: seq<Runtime>, utilizationOk: bool): Report
    requires |tasks| >= 1 && ValidTaskSet(tasks) && |rs0| == |tasks|
  {
    var hyperperiod := Hyperperiod(tasks);
    Report(Some(Header(utilizationOk, hyperperiod)), Simulation(EDF, tasks, rs0, hyperperiod).trace)
  }

  method ScheduleRm(tasks: seq<Task>, rt: array<Runtime>, boundTestPassed: bool)
    returns (report: Report)
    requires |tasks| >= 1 && ValidTaskSet(tasks) && rt.Length == |tasks|
    modifies rt
    ensures report == RmReport(tasks, old(rt[..]), boundTestPassed)
    ensures rt[..] == Simulation(RM, tasks, old(rt[..]), Hyperperiod(tasks)).state
  {
    var hyperperiod := ComputeHyperperiod(tasks);
    var header: Option<Header> := None;
    if !boundTestPassed {
      var schedulable := RtaVerdict(tasks);
      header := Some(Header(schedulable, hyperperiod));
    }
    var trace := Simulate(RM, tasks, rt, hyperperiod);
    report := Report(header, trace);
  }

  method ScheduleEdf(tasks: seq<Task>, rt: array<Runtime>, utilizationOk: bool)
    returns (report: Report)
    requires |tasks| >= 1 && ValidTaskSet(tasks) && rt.Length == |tasks|
    modifies rt
    ensures report == EdfReport(tasks, old(rt[..]), utilizationOk)
    ensures rt[..] == Simulation(EDF, tasks, old(rt[..]), Hyperperiod(tasks)).state
  {
    var hyperperiod := ComputeHyperperiod(tasks);
    var header := Some(Header(utilizationOk, hyperperiod));
    var trace := Simulate(EDF, tasks, rt, hyperperiod);
    report := Report(header, trace);
  }
}
