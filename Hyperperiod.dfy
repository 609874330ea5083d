/** The hyperperiod: the left fold of `lcm` over the task periods, seeded with
    the first task's period. */
module Horizon {

  import opened NumberTheory
  import opened TaskModel

  /** The fold after the first `k` periods. */
  function LcmPrefix(tasks: seq<Task>, k: nat): (h: nat)
    requires 1 <= k <= |tasks| && ValidTaskSet(tasks)
    ensures h > 0
  {
    if k == 1 then tasks[0].period
    else
      var acc := LcmPrefix(tasks, k - 1);
      LcmIsCommonMultiple(acc, tasks[k - 1].period);
      Lcm(acc, tasks[k - 1].period)
  }

  function Hyperperiod(tasks: seq<Task>): nat
    requires |tasks| >= 1 && ValidTaskSet(tasks)
  {
    LcmPrefix(tasks, |tasks|)
  }

  /** Every period folded so far divides the accumulated value. */
  lemma {:induction false} LcmPrefixDividesAll(tasks: seq<Task>, k: nat)
    requires 1 <= k <= |tasks| && ValidTaskSet(tasks)
    ensures forall j :: 0 <= j < k ==> Divides(tasks[j].period, LcmPrefix(tasks, k))
  {
    var h := LcmPrefix(tasks, k);
    if k == 1 {
      MultipleMod(tasks[0].period, 1);
    } else {
      var acc := LcmPrefix(tasks, k - 1);
      LcmPrefixDividesAll(tasks, k - 1);
      LcmIsCommonMultiple(acc, tasks[k - 1].period);
      forall j | 0 <= j < k
        ensures Divides(tasks[j].period, h)
      {
        if j < k - 1 {
          DividesTransitive(tasks[j].period, acc, h);
        }
      }
    }
  }

  /** The hyperperiod is positive and every task's period divides it. */
  lemma HyperperiodDividesAll(tasks: seq<Task>)
    requires |tasks| >= 1 && ValidTaskSet(tasks)
    ensures Hyperperiod(tasks) > 0
    ensures forall j :: 0 <= j < |tasks| ==> Hyperperiod(tasks) % tasks[j].period == 0
  {
    LcmPrefixDividesAll(tasks, |tasks|);
  }

  lemma {:induction false} LcmPrefixDividesCommonMultiple(tasks: seq<Task>, k: nat, m: int)
    requires 1 <= k <= |tasks| && ValidTaskSet(tasks)
    requires forall j :: 0 <= j < k ==> Divides(tasks[j].period, m)
    ensures Divides(LcmPrefix(tasks, k), m)
  {
    if k > 1 {
      LcmPrefixDividesCommonMultiple(tasks, k - 1, m);
      LcmDividesCommonMultiple(LcmPrefix(tasks, k - 1), tasks[k - 1].period, m);
    }
  }

  /** The hyperperiod is the least common multiple of the periods: it
      divides, and so does not exceed, every positive common multiple. */
  lemma HyperperiodIsLeast(tasks: seq<Task>, m: int)
    requires |tasks| >= 1 && ValidTaskSet(tasks)
    requires m > 0 && forall j :: 0 <= j < |tasks| ==> m % tasks[j].period == 0
    ensures m % Hyperperiod(tasks) == 0 && Hyperperiod(tasks) <= m
  {
    LcmPrefixDividesCommonMultiple(tasks, |tasks|, m);
    var h := Hyperperiod(tasks);
    var q := m / h;
    assert m == h * q;
    if q <= 0 {
      assert false;
    }
    assert h * q >= h * 1;
  }

  /** The loop that both schedulers run before simulating. */
  method ComputeHyperperiod(tasks: seq<Task>) returns (hyperperiod: int)
    requires |tasks| >= 1 && ValidTaskSet(tasks)
    ensures hyperperiod == Hyperperiod(tasks)
    ensures hyperperiod > 0
    ensures forall j :: 0 <= j < |tasks| ==> hyperperiod % tasks[j].period == 0
  {
    hyperperiod := tasks[0].period;
    for i := 1 to |tasks|
      invariant hyperperiod == LcmPrefix(tasks, i)
    {
      hyperperiod := Lcm(hyperperiod, tasks[i].period);
    }
    HyperperiodDividesAll(tasks);
  }
}
