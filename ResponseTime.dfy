/** Response-Time Analysis for fixed-priority (rate-monotonic) scheduling:
    the worst-case response time of task `i` is the least fixed point of
    `R = wcet_i + sum over higher-priority j of ceil(R / period_j) * wcet_j`,
    found by iterating from `R = wcet_i` and abandoned as soon as `R` passes
    the task's deadline. */
module ResponseTime {

  import opened TaskModel

  /** Exact integer ceiling of `a / b` (the source applies `ceil` to a
      floating-point quotient of two positive integers). */
  function CeilDiv(a: int, b: int): (q: int)
    requires b > 0
    ensures (q - 1) * b < a <= q * b
  {
    var q := (a + b - 1) / b;
    assert a + b - 1 == b * q + (a + b - 1) % b;
    q
  }

  lemma CeilDivMonotone(a1: int, a2: int, b: int)
    requires b > 0 && a1 <= a2
    ensures CeilDiv(a1, b) <= CeilDiv(a2, b)
  {
    var q1, q2 := CeilDiv(a1, b), CeilDiv(a2, b);
    MulStrictCancel(q1 - 1, q2, b);
  }

  lemma MulStrictCancel(x: int, y: int, b: int)
    requires b > 0 && x * b < y * b
    ensures x < y
  {
  }

  /** The interference on task `i` from the higher-priority tasks among the
      first `k`, for a candidate response time `r`. */
  function InterferenceUpTo(tasks: seq<Task>, i: nat, r: int, k: nat): int
    requires ValidTaskSet(tasks) && i < |tasks| && k <= |tasks|
  {
    if k == 0 then 0
    else
      InterferenceUpTo(tasks, i, r, k - 1)
      + (if HigherPriority(tasks, k - 1, i)
         then CeilDiv(r, tasks[k - 1].period) * tasks[k - 1].wcet
         else 0)
  }

  /** The right-hand side of the response-time recurrence. */
  function Demand(tasks: seq<Task>, i: nat, r: int): int
    requires ValidTaskSet(tasks) && i < |tasks|
  {
    tasks[i].wcet + InterferenceUpTo(tasks, i, r, |tasks|)
  }

  lemma {:induction false} InterferenceMonotone(tasks: seq<Task>, i: nat, r1: int, r2: int, k: nat)
    requires ValidTaskSet(tasks) && i < |tasks| && k <= |tasks|
    requires r1 <= r2
    ensures InterferenceUpTo(tasks, i, r1, k) <= InterferenceUpTo(tasks, i, r2, k)
  {
    if k > 0 {
      InterferenceMonotone(tasks, i, r1, r2, k - 1);
      var p, w := tasks[k - 1].period, tasks[k - 1].wcet;
      CeilDivMonotone(r1, r2, p);
      assert CeilDiv(r1, p) * w <= CeilDiv(r2, p) * w;
    }
  }

  lemma {:induction false} InterferenceNonNegative(tasks: seq<Task>, i: nat, r: int, k: nat)
    requires ValidTaskSet(tasks) && i < |tasks| && k <= |tasks|
    requires r >= 0
    ensures InterferenceUpTo(tasks, i, r, k) >= 0
  {
    if k > 0 {
      InterferenceNonNegative(tasks, i, r, k - 1);
      var p, w := tasks[k - 1].period, tasks[k - 1].wcet;
      assert CeilDiv(r, p) >= 0;
      assert CeilDiv(r, p) * w >= 0;
    }
  }

  /** Demand is monotone, so iterating it from a point below its value climbs. */
  lemma DemandMonotone(tasks: seq<Task>, i: nat, r1: int, r2: int)
    requires ValidTaskSet(tasks) && i < |tasks| && r1 <= r2
    ensures Demand(tasks, i, r1) <= Demand(tasks, i, r2)
  {
    InterferenceMonotone(tasks, i, r1, r2, |tasks|);
  }

  /** The iteration continued from the current value `r`: the next value is
      `Demand(r)`; past the deadline the answer is -1, at a fixed point it is
      `r`. */
  function ResponseFrom(tasks: seq<Task>, i: nat, r: int): int
    requires ValidTaskSet(tasks) && i < |tasks|
    requires r <= Demand(tasks, i, r)
    decreases if r <= tasks[i].deadline then tasks[i].deadline - r + 1 else 0
  {
    var next := Demand(tasks, i, r);
    if next > tasks[i].deadline then -1
    else if next == r then r
    else
      DemandMonotone(tasks, i, r, next);
      ResponseFrom(tasks, i, next)
  }

  /** `calculate_response_time`, as a function of the task set. */
  function ResponseTime(tasks: seq<Task>, i: nat): int
    requires ValidTaskSet(tasks) && i < |tasks|
  {
    InterferenceNonNegative(tasks, i, tasks[i].wcet, |tasks|);
    ResponseFrom(tasks, i, tasks[i].wcet)
  }

  /** A fixed point of the recurrence at or above `r` bounds the iteration:
      it either stays at or below that fixed point, or fails because the fixed
      point itself lies beyond the deadline. */
  lemma {:induction false} ResponseFromBelowFixedPoint(tasks: seq<Task>, i: nat, r: int, fp: int)
    requires ValidTaskSet(tasks) && i < |tasks|
    requires tasks[i].wcet <= r <= Demand(tasks, i, r)
    requires r <= fp && Demand(tasks, i, fp) == fp
    ensures ResponseFrom(tasks, i, r) == -1 ==> fp > tasks[i].deadline
    ensures ResponseFrom(tasks, i, r) != -1 ==> ResponseFrom(tasks, i, r) <= fp
    decreases if r <= tasks[i].deadline then tasks[i].deadline - r + 1 else 0
  {
    var next := Demand(tasks, i, r);
    DemandMonotone(tasks, i, r, fp);
    if next <= tasks[i].deadline && next != r {
      DemandMonotone(tasks, i, r, next);
      ResponseFromBelowFixedPoint(tasks, i, next, fp);
    }
  }

  /** A non-failing iteration ends at a fixed point no lower than where it
      started, within the deadline. */
  lemma {:induction false} ResponseFromIsFixedPoint(tasks: seq<Task>, i: nat, r: int)
    requires ValidTaskSet(tasks) && i < |tasks|
    requires r <= Demand(tasks, i, r)
    ensures ResponseFrom(tasks, i, r) != -1 ==>
      r <= ResponseFrom(tasks, i, r) <= tasks[i].deadline
      && Demand(tasks, i, ResponseFrom(tasks, i, r)) == ResponseFrom(tasks, i, r)
    decreases if r <= tasks[i].deadline then tasks[i].deadline - r + 1 else 0
  {
    var next := Demand(tasks, i, r);
    if next <= tasks[i].deadline && next != r {
      DemandMonotone(tasks, i, r, next);
      ResponseFromIsFixedPoint(tasks, i, next);
    }
  }

  /** What RTA computes: -1 exactly when the recurrence has no fixed point in
      `[wcet_i, deadline_i]`; otherwise the least fixed point at or above
      `wcet_i`, which lies within the deadline. */
  lemma ResponseTimeCharacterization(tasks: seq<Task>, i: nat)
    requires ValidTaskSet(tasks) && i < |tasks|
    ensures ResponseTime(tasks, i) == -1 <==>
      forall x :: tasks[i].wcet <= x <= tasks[i].deadline ==> Demand(tasks, i, x) != x
    ensures ResponseTime(tasks, i) != -1 ==>
      var r := ResponseTime(tasks, i);
      && tasks[i].wcet <= r <= tasks[i].deadline
      && r == Demand(tasks, i, r)
      && forall x :: tasks[i].wcet <= x < r ==> Demand(tasks, i, x) != x
  {
    var w := tasks[i].wcet;
    InterferenceNonNegative(tasks, i, w, |tasks|);
    ResponseFromIsFixedPoint(tasks, i, w);
    forall x | w <= x && Demand(tasks, i, x) == x
      ensures ResponseTime(tasks, i) == -1 ==> x > tasks[i].deadline
      ensures ResponseTime(tasks, i) != -1 ==> ResponseTime(tasks, i) <= x
    {
      ResponseFromBelowFixedPoint(tasks, i, w, x);
    }
  }

  /** `calculate_response_time`: the fixed-point iteration, with the
      interference accumulated over the higher-priority tasks. */
  method CalculateResponseTime(tasks: seq<Task>, i: nat) returns (responseTime: int)
    requires ValidTaskSet(tasks) && i < |tasks|
    ensures responseTime == ResponseTime(tasks, i)
    ensures responseTime == -1
      || (tasks[i].wcet <= responseTime <= tasks[i].deadline
          && responseTime == Demand(tasks, i, responseTime))
  {
    ResponseTimeCharacterization(tasks, i);
    InterferenceNonNegative(tasks, i, tasks[i].wcet, |tasks|);
    responseTime := tasks[i].wcet;
    var previousResponseTime := -1;
    while responseTime != previousResponseTime
      invariant previousResponseTime <= responseTime <= Demand(tasks, i, responseTime)
      invariant ResponseTime(tasks, i) ==
        if responseTime == previousResponseTime then responseTime
        else ResponseFrom(tasks, i, responseTime)
      decreases tasks[i].deadline - previousResponseTime
    {
      previousResponseTime := responseTime;
      var interference := 0;
      for j := 0 to |tasks|
        invariant interference == InterferenceUpTo(tasks, i, responseTime, j)
      {
        if tasks[j].period < tasks[i].period || (tasks[j].period == tasks[i].period && j < i) {
          var numExecutions := CeilDiv(responseTime, tasks[j].period);
          interference := interference + numExecutions * tasks[j].wcet;
        }
      }
      responseTime := tasks[i].wcet + interference;
      if responseTime > tasks[i].deadline {
        return -1;
      }
      DemandMonotone(tasks, i, previousResponseTime, responseTime);
    }
  }

  /** The RM exact test: there is at least one task and every task's
      response-time iteration converges within its deadline. */
  predicate PassesRta(tasks: seq<Task>)
    requires ValidTaskSet(tasks)
  {
    |tasks| >= 1 && forall i :: 0 <= i < |tasks| ==> ResponseTime(tasks, i) != -1
  }

  /** The recurrence of task `i` has a fixed point between its WCET and its
      deadline. */
  ghost predicate HasFixedPointWithin(tasks: seq<Task>, i: nat)
    requires ValidTaskSet(tasks) && i < |tasks|
  {
    exists x :: tasks[i].wcet <= x <= tasks[i].deadline && Demand(tasks, i, x) == x
  }

  /** The exact test holds exactly when every task's recurrence has a fixed
      point between its WCET and its deadline. */
  lemma PassesRtaIffFixedPoints(tasks: seq<Task>)
    requires ValidTaskSet(tasks)
    ensures PassesRta(tasks) <==>
      |tasks| >= 1 && forall i :: 0 <= i < |tasks| ==> HasFixedPointWithin(tasks, i)
  {
    forall i | 0 <= i < |tasks|
      ensures ResponseTime(tasks, i) != -1 <==> HasFixedPointWithin(tasks, i)
    {
      ResponseTimeCharacterization(tasks, i);
      var r := ResponseTime(tasks, i);
      if r != -1 {
        assert tasks[i].wcet <= r <= tasks[i].deadline && Demand(tasks, i, r) == r;
      }
    }
  }

  /** The verdict loop of `schedule_rm`, run when the utilization-bound test
      fails: it stops at the first task whose iteration fails. */
  method RtaVerdict(tasks: seq<Task>) returns (schedulable: bool)
    requires ValidTaskSet(tasks)
    ensures schedulable == PassesRta(tasks)
  {
    schedulable := false;
    for i := 0 to |tasks|
      invariant forall j :: 0 <= j < i ==> ResponseTime(tasks, j) != -1
      invariant schedulable == (i > 0)
    {
      var responseTime := CalculateResponseTime(tasks, i);
      if responseTime == -1 {
        schedulable := false;
        break;
      } else {
        schedulable := true;
      }
    }
  }
}
