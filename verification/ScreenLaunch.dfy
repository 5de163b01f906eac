/** Running the kernel: any enabled step may come next. */
module ScreenLaunch {
  import opened ScreenKernel
  import opened ScreenSafety

  method RunKernel(c: Launch) returns (out: seq<Slot>, count: nat)
    requires c.grid > 0
    ensures exists emissions :: Emits(c, emissions, count, out)
  {
    var s := Start(c);
    StartInvariant(c);
    while !Done(c, s)
      invariant Invariant(c, s)
      decreases Work(c, s.warps)
    {
      ghost var possible := NoDeadlock(c, s);
      var step :| Enabled(c, s, step);
      InvariantKept(c, s, step);
      WorkDecreases(c, s, step);
      s := Apply(c, s, step);
    }
    FinalState(c, s);
    out, count := s.out, s.count;
  }
}
