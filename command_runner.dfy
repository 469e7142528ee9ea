/**
 * Running a list of dependent commands.  Each command, already applied to its
 * arguments, acts on the world `W` and yields a status; a truthy (non-zero)
 * status is a failure, and a failure stops the run: no later command runs.
 */
module CommandRunner {

  /** A command with its arguments bound: the status it returns and the world it leaves. */
  type Command<!W> = W -> (int, W)

  /** What a run did: the statuses of the commands that ran, in order, and the final world. */
  datatype Report<W> = Report(statuses: seq<int>, world: W)

  /** How a run ended: every command succeeded, or the command at `index` failed with `status`. */
  datatype Outcome = Completed | FailedAt(index: nat, status: int)

  /**
   * The world left by running every command of `cmds` in order, ignoring
   * statuses: running a list is running all but its last command and then
   * the last one on the world they leave.
   */
  function Pipe<W>(cmds: seq<Command<W>>, w: W): (r: W)
    ensures cmds == [] ==> r == w
    ensures cmds != [] ==> r == cmds[|cmds| - 1](Pipe(cmds[..|cmds| - 1], w)).1
    decreases |cmds|
  {
    if cmds == [] then w
    else
      var n := |cmds|;
      var next := cmds[0](w).1;
      assert n > 1 ==> cmds[..n - 1][1..] == cmds[1..][..n - 2];
      assert n == 1 ==> cmds[..n - 1] == [];
      Pipe(cmds[1..], next)
  }

  /**
   * The fail-fast run: at most every command runs; every command that ran
   * before the last one succeeded; and the run ends early only at a failure.
   */
  function Run<W>(cmds: seq<Command<W>>, w: W): (r: Report<W>)
    ensures |r.statuses| <= |cmds|
    ensures forall j :: 0 <= j < |r.statuses| - 1 ==> r.statuses[j] == 0
    ensures |r.statuses| < |cmds| ==> |r.statuses| > 0 && r.statuses[|r.statuses| - 1] != 0
    decreases |cmds|
  {
    if cmds == [] then Report([], w)
    else
      var (status, next) := cmds[0](w);
      if status != 0 then Report([status], next)
      else
        var rest := Run(cmds[1..], next);
        Report([0] + rest.statuses, rest.world)
  }

  /** Whether the run stopped at a failing command. */
  predicate Stopped<W>(r: Report<W>) {
    |r.statuses| > 0 && r.statuses[|r.statuses| - 1] != 0
  }

  function Zeros(n: nat): (z: seq<int>)
    ensures |z| == n && forall j :: 0 <= j < n ==> z[j] == 0
  {
    seq(n, _ => 0)
  }

  /** The final world is the effect of exactly the commands that ran, in list order. */
  lemma {:induction false} RunWorldIsPrefixEffect<W>(cmds: seq<Command<W>>, w: W)
    ensures Run(cmds, w).world == Pipe(cmds[..|Run(cmds, w).statuses|], w)
    decreases |cmds|
  {
    if cmds != [] {
      var (status, next) := cmds[0](w);
      if status == 0 {
        var n := |Run(cmds, w).statuses|;
        assert cmds[..n][1..] == cmds[1..][..n - 1];
        RunWorldIsPrefixEffect(cmds[1..], next);
      } else {
        assert cmds[..1][1..] == [];
      }
    }
  }

  /**
   * Commands run strictly in order: the status recorded for command `j` is
   * what it returned on the world its predecessors left.
   */
  lemma {:induction false} RunStatusIsCommandResult<W>(cmds: seq<Command<W>>, w: W, j: nat)
    requires j < |Run(cmds, w).statuses|
    ensures Run(cmds, w).statuses[j] == cmds[j](Pipe(cmds[..j], w)).0
    decreases j
  {
    var next := cmds[0](w).1;
    if j > 0 {
      assert cmds[..j][1..] == cmds[1..][..j - 1];
      RunStatusIsCommandResult(cmds[1..], next, j - 1);
    }
  }

  /** Nothing after a failure runs: appending commands after a stopped run changes nothing. */
  lemma {:induction false} RunIgnoresLaterCommands<W>(cmds: seq<Command<W>>, later: seq<Command<W>>, w: W)
    requires Stopped(Run(cmds, w))
    ensures Run(cmds + later, w) == Run(cmds, w)
    decreases |cmds|
  {
    var (status, next) := cmds[0](w);
    assert (cmds + later)[0] == cmds[0];
    if status == 0 {
      assert (cmds + later)[1..] == cmds[1..] + later;
      RunIgnoresLaterCommands(cmds[1..], later, next);
    }
  }

  /** When every command succeeds on the world it is given, each runs exactly once, in order. */
  lemma {:induction false} RunAllSucceed<W>(cmds: seq<Command<W>>, w: W)
    requires forall j :: 0 <= j < |cmds| ==> cmds[j](Pipe(cmds[..j], w)).0 == 0
    ensures Run(cmds, w) == Report(Zeros(|cmds|), Pipe(cmds, w))
    decreases |cmds|
  {
    if cmds != [] {
      assert cmds[..0] == [];
      var next := cmds[0](w).1;
      forall j | 0 <= j < |cmds[1..]|
        ensures cmds[1..][j](Pipe(cmds[1..][..j], next)).0 == 0
      {
        assert cmds[..j + 1][1..] == cmds[1..][..j];
        assert cmds[1..][j] == cmds[j + 1];
      }
      RunAllSucceed(cmds[1..], next);
      assert [0] + Zeros(|cmds| - 1) == Zeros(|cmds|);
    }
  }

  /**
   * The runner: executes the commands in list order and stops at the first
   * one whose status is non-zero, reporting its position and status.
   */
  method RunDependentCommands<W>(cmds: seq<Command<W>>, w: W) returns (outcome: Outcome, world: W)
    ensures world == Run(cmds, w).world
    ensures outcome.FailedAt? <==> Stopped(Run(cmds, w))
    ensures outcome.FailedAt? ==>
      var r := Run(cmds, w);
      outcome.index == |r.statuses| - 1 && outcome.status == r.statuses[outcome.index] != 0
    ensures outcome.Completed? ==> Run(cmds, w).statuses == Zeros(|cmds|)
  {
    world := w;
    var i := 0;
    while i < |cmds|
      invariant 0 <= i <= |cmds|
      invariant Run(cmds, w).statuses == Zeros(i) + Run(cmds[i..], world).statuses
      invariant Run(cmds, w).world == Run(cmds[i..], world).world
    {
      var (status, next) := cmds[i](world);
      assert cmds[i..][0] == cmds[i];
      if status != 0 {
        world := next;
        return FailedAt(i, status), world;
      }
      assert cmds[i..][1..] == cmds[i + 1..];
      assert Zeros(i) + [0] == Zeros(i + 1);
      world := next;
      i := i + 1;
    }
    assert cmds[i..] == [];
    assert Zeros(i) + [] == Zeros(i);
    outcome := Completed;
  }

  /** Steps A (succeeds), B (fails), C (succeeds): A and B run, C does not, B (index 1) is reported. */
  lemma FailureScenario()
    ensures var a: Command<int> := n => (0, n + 1);
      var b: Command<int> := n => (1, n * 10);
      var c: Command<int> := n => (0, n + 100);
      Run([a, b, c], 0) == Report([0, 1], 10)
  {
    var a: Command<int> := n => (0, n + 1);
    var b: Command<int> := n => (1, n * 10);
    var c: Command<int> := n => (0, n + 100);
    assert [a, b, c][1..] == [b, c];
  }
}
