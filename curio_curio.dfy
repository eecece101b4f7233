/**
 * The curio script's entry point: run 10 trials one after another, then, for
 * every listed `f`, remove `f + "_out"` if it exists. There is no check
 * that the directory exists: on a missing directory the first listing raises
 * an uncaught FileNotFoundError, and the interpreter exits with status 1.
 * `clock(i)` stands for the elapsed time the perf counter gives trial `i`.
 */
module CurioCurio {
  import opened Artifacts
  import opened IoBench

  const Trials: nat := 10

  method Run(d: Directory, clock: nat -> real) returns (outcome: RunOutcome)
    requires d.Valid()
    modifies d
    ensures d.Valid() && d.present == old(d.present)
    ensures !old(d.present) ==> outcome == Exited(1) && d.entries == old(d.entries)
    ensures old(d.present) ==> outcome == Completed(seq(Trials, i requires 0 <= i => clock(i)))
    ensures old(d.present) ==> d.entries == PairedCleaned(AfterTrials(old(d.entries), Trials))
    ensures old(d.present) && NoOutNames(old(d.entries)) ==> d.entries == old(d.entries)
  {
    if !d.present {
      return Exited(1);
    }
    var res: seq<real> := [];
    for i := 0 to Trials
      invariant d.present
      invariant d.entries == AfterTrials(old(d.entries), i)
      invariant res == seq(i, k requires 0 <= k => clock(k))
    {
      var _ := FileIoTrial(d);
      res := res + [clock(i)];
    }
    PairedCleanup(d);
    if NoOutNames(old(d.entries)) {
      PairedCleanupRestores(old(d.entries), Trials);
    }
    return Completed(res);
  }
}
