/** The commands the Fabric scripts issue, and a sequential run of a command plan.
    Whether a command succeeds is not modelled: it is the oracle `ok`, indexed by the
    command's position in the plan. A command that fails raises, so nothing after it
    is issued. */
module Fabric {

  datatype Command =
    | Local(line: string)                 // fabric.api.local
    | Put(source: string, target: string) // fabric.api.put
    | Run(line: string)                   // fabric.api.run

  /** The commands issued, in order, and whether the run reached its end. */
  datatype Execution = Execution(issued: seq<Command>, success: bool)

  /** Issues `plan[from..]` in order, stopping at the first command that fails. The
      run succeeds iff every remaining command succeeds; a failed run has issued
      exactly the commands up to and including the first failure. */
  function RunPlan(plan: seq<Command>, ok: nat -> bool, from: nat): (e: Execution)
    requires from <= |plan|
    ensures from + |e.issued| <= |plan| && e.issued == plan[from..from + |e.issued|]
    ensures e.success <==> forall i :: from <= i < |plan| ==> ok(i)
    ensures e.success ==> e.issued == plan[from..]
    ensures !e.success ==>
      (&& |e.issued| > 0
       && !ok(from + |e.issued| - 1)
       && forall i :: from <= i < from + |e.issued| - 1 ==> ok(i))
    decreases |plan| - from
  {
    if from == |plan| then Execution([], true)
    else if !ok(from) then Execution([plan[from]], false)
    else
      var rest := RunPlan(plan, ok, from + 1);
      Execution([plan[from]] + rest.issued, rest.success)
  }

  /** `e` is a run of the whole of `plan`: it issued a prefix of the plan, all of it
      exactly when every command succeeded, and otherwise stopped at the first
      command that failed: every command before it succeeded. */
  predicate RanInOrder(e: Execution, plan: seq<Command>, ok: nat -> bool)
  {
    && |e.issued| <= |plan| && e.issued == plan[..|e.issued|]
    && (e.success <==> forall i :: 0 <= i < |plan| ==> ok(i))
    && (e.success ==> e.issued == plan)
    && (!e.success ==> |e.issued| > 0 && !ok(|e.issued| - 1))
    && (!e.success ==> forall i :: 0 <= i < |e.issued| - 1 ==> ok(i))
  }

  /** Runs `plan` from its first command. */
  function Execute(plan: seq<Command>, ok: nat -> bool): (e: Execution)
    ensures RanInOrder(e, plan, ok)
  {
    var e := RunPlan(plan, ok, 0);
    assert plan[0..|e.issued|] == plan[..|e.issued|];
    e
  }
}
