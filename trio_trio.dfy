/**
 * The trio script's entry point: check that the directory exists, run 20
 * trials one after another, then remove every file whose name ends in "_out".
 * `clock(i)` stands for the elapsed time the perf counter gives trial `i`.
 */
module TrioTrio {
  import opened Artifacts
  import opened IoBench

  const Trials: nat := 20

  method Run(d: Directory, clock: nat -> real) returns (outcome: RunOutcome)
    requires d.Valid()
    modifies d
    ensures d.Valid() && d.present == old(d.present)
    ensures !old(d.present) ==> outcome == Exited(1) && d.entries == old(d.entries)
    ensures old(d.present) ==> outcome == Completed(seq(Trials, i requires 0 <= i => clock(i)))
    ensures old(d.present) ==> d.entries == SuffixCleaned(AfterTrials(old(d.entries), Trials))
    ensures old(d.present) && NoOutNames(old(d.entries)) ==> d.entries == old(d.entries)
  {
    if !d.present {
      return Exited(1);
    }
    var res: seq<real> := [];
    for i := 0 to Trials
      invariant d.present
      invariant d.entries == AfterTrials(old(d.entries), i)
      invariant res == seq(i, k requires 0 <= k => clock(k))
    {
      var _ := FileIoTrial(d);
      res := res + [clock(i)];
    }
    SuffixCleanup(d);
    if NoOutNames(old(d.entries)) {
      SuffixCleanupRestores(old(d.entries), Trials);
    }
    return Completed(res);
  }
}
