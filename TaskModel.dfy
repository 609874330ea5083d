/** The task record of the scheduler: the static parameters read once from
    the input, and the per-instance runtime fields the simulators update. */
module TaskModel {

  /** Static parameters of one periodic task. Tasks are identified by their
      index in the task sequence, which is also the RM tie-break. */
  datatype Task = Task(phase: int, period: int, wcet: int, deadline: int)

  /** Runtime fields of one task: the cost left of its current instance, the
      time of its next release and the absolute deadline of its instance. */
  datatype Runtime = Runtime(remaining: int, nextRelease: int, absDeadline: int)

  /** The data-model invariant on static parameters: positive period and WCET. */
  predicate ValidTask(task: Task) {
    task.period > 0 && task.wcet > 0
  }

  predicate ValidTaskSet(tasks: seq<Task>) {
    forall i :: 0 <= i < |tasks| ==> ValidTask(tasks[i])
  }

  /** A released instance that still has cost left. */
  predicate Pending(r: Runtime) {
    r.remaining > 0
  }

  /** Fixed (rate-monotonic) priority: task `j` preempts task `i` when its
      period is shorter, or equal and `j` comes first in the task sequence. */
  predicate HigherPriority(tasks: seq<Task>, j: nat, i: nat)
    requires j < |tasks| && i < |tasks|
  {
    tasks[j].period < tasks[i].period || (tasks[j].period == tasks[i].period && j < i)
  }
}
