/**
 * The parent side of the fork/wait worker pool: how the parent folds the
 * termination statuses of its children, in the order `wait` reaps them,
 * into its own exit status. The drivers use three policies.
 */
module Pool {

  /** The harness's own status codes. */
  const SUCCESS: int := 0
  const FAILURE: int := 1
  const NOT_IMPLEMENTED: int := 2

  /** How a worker ended: it returned a value from `main`, or a signal killed it. */
  datatype WorkerEnd = Returned(value: int) | Killed

  /** What `wait` reports about a reaped child. */
  datatype ChildOutcome =
    | Exited(status: nat)   // WIFEXITED, with WEXITSTATUS
    | Signaled              // WIFSIGNALED
    | Unknown               // neither

  /** The exit status the parent sees for a value a child returns from `main`: its low eight bits. */
  function ExitStatus(value: int): (s: nat)
    ensures s < 256
    ensures 0 <= value < 256 ==> s == value
  {
    value % 256
  }

  /** What the parent is told about a worker that ended as `e`. */
  function OutcomeOf(e: WorkerEnd): ChildOutcome {
    match e
    case Returned(v) => Exited(ExitStatus(v))
    case Killed => Signaled
  }

  /** The three aggregation policies. */
  datatype Policy =
    | LastWins       // the 2020 1:N driver and both morph drivers
    | Ignored        // the 2018 1:N driver
    | SignalSticky   // the 1:1 and quality drivers

  /** The status after reaping one more child. */
  function Fold(policy: Policy, status: int, o: ChildOutcome): int {
    match policy
    case LastWins => if o.Exited? then o.status else FAILURE
    case Ignored => status
    case SignalSticky => if o.Exited? then status else FAILURE
  }

  /** The status after reaping `outcomes` in order, starting from SUCCESS. */
  function Aggregate(policy: Policy, outcomes: seq<ChildOutcome>): int
    decreases |outcomes|
  {
    if outcomes == [] then SUCCESS
    else Fold(policy, Aggregate(policy, outcomes[..|outcomes| - 1]), outcomes[|outcomes| - 1])
  }

  /**
   * The wait loop: `numForks` calls to `wait`, `reaped` being what they
   * report in order (one per forked child).
   */
  method WaitForChildren(policy: Policy, numForks: int, reaped: seq<ChildOutcome>) returns (exitStatus: int)
    requires |reaped| == if numForks > 0 then numForks else 0
    ensures exitStatus == Aggregate(policy, reaped)
  {
    exitStatus := SUCCESS;
    var n := numForks;
    var k := 0;
    while n > 0
      invariant 0 <= k <= |reaped|
      invariant n <= 0 ==> k == |reaped|
      invariant n > 0 ==> k + n == |reaped|
      invariant exitStatus == Aggregate(policy, reaped[..k])
    {
      var o := reaped[k];
      match policy {
        case LastWins =>
          if o.Exited? {
            exitStatus := o.status;
          } else {
            exitStatus := FAILURE;
          }
        case Ignored =>
        case SignalSticky =>
          if !o.Exited? {
            exitStatus := FAILURE;
          }
      }
      assert reaped[..k + 1][..k] == reaped[..k];
      k := k + 1;
      n := n - 1;
    }
    assert reaped[..k] == reaped;
  }

  /**
   * The last-wins parent's wait loop over the workers it forked, `ends` in the order
   * they are reaped: the status of the last one reaped, its exit code or
   * FAILURE if it was killed, and SUCCESS when there was none.
   */
  method LastWinsExit(forks: int, ends: seq<WorkerEnd>) returns (exitStatus: int)
    requires |ends| == if forks > 0 then forks else 0
    ensures ends == [] ==> exitStatus == SUCCESS
    ensures ends != [] ==> exitStatus == match ends[|ends| - 1]
      case Returned(v) => ExitStatus(v)
      case Killed => FAILURE
  {
    var outcomes := seq(|ends|, i requires 0 <= i < |ends| => OutcomeOf(ends[i]));
    exitStatus := WaitForChildren(LastWins, forks, outcomes);
    LastWinsIsLast(outcomes);
  }

  /**
   * Last wins: the parent reports the last reaped child, whatever came
   * before it, and SUCCESS when there was none.
   */
  lemma {:induction false} LastWinsIsLast(outcomes: seq<ChildOutcome>)
    ensures outcomes == [] ==> Aggregate(LastWins, outcomes) == SUCCESS
    ensures outcomes != [] ==>
      var last := outcomes[|outcomes| - 1];
      Aggregate(LastWins, outcomes) == if last.Exited? then last.status else FAILURE
  {
  }

  /** Under last wins a clean exit reaped after a killed worker hides the kill, and order matters. */
  lemma LastWinsHidesKill()
    ensures Aggregate(LastWins, [Signaled, Exited(0)]) == SUCCESS
    ensures Aggregate(LastWins, [Exited(0), Signaled]) == FAILURE
  {
    assert [Signaled, Exited(0)][..1] == [Signaled];
    assert [Exited(0), Signaled][..1] == [Exited(0)];
  }

  /** The 2018 driver's parent reports SUCCESS whatever its children did. */
  lemma {:induction false} IgnoredAlwaysSucceeds(outcomes: seq<ChildOutcome>)
    ensures Aggregate(Ignored, outcomes) == SUCCESS
    decreases |outcomes|
  {
    if outcomes != [] {
      IgnoredAlwaysSucceeds(outcomes[..|outcomes| - 1]);
    }
  }

  /**
   * Signal-only, sticky: FAILURE exactly when some child did not exit
   * normally, in any position; exit codes themselves are never looked at.
   */
  lemma {:induction false} StickyFailsIffSomeoneKilled(outcomes: seq<ChildOutcome>)
    ensures Aggregate(SignalSticky, outcomes) == FAILURE <==> exists i :: 0 <= i < |outcomes| && !outcomes[i].Exited?
    ensures Aggregate(SignalSticky, outcomes) == SUCCESS <==> forall i :: 0 <= i < |outcomes| ==> outcomes[i].Exited?
    decreases |outcomes|
  {
    if outcomes != [] {
      var prior := outcomes[..|outcomes| - 1];
      StickyFailsIffSomeoneKilled(prior);
      if exists i :: 0 <= i < |prior| && !prior[i].Exited? {
        var i :| 0 <= i < |prior| && !prior[i].Exited?;
        assert outcomes[i] == prior[i];
      }
      if exists i :: 0 <= i < |outcomes| && !outcomes[i].Exited? {
        var i :| 0 <= i < |outcomes| && !outcomes[i].Exited?;
        if i < |prior| {
          assert prior[i] == outcomes[i];
        }
      }
      assert forall i :: 0 <= i < |prior| ==> prior[i] == outcomes[i];
    }
  }
}
