/** Reducing an HLL_8 register array to the state the Composite estimator reads. Double
    arithmetic is real arithmetic followed by a rounding `fl` of which only one property is
    used: it leaves alone what a double can represent. */
module HllReduction {
  import opened DevicePrimitives

  const MAX_RHO: nat := 63
  const MAX_LG_CONFIG_K: nat := 21
  const LOW_LIMIT: nat := 32
  /** The finest weight in the first accumulator is 2^-31; it counts in these units. */
  const UNIT: int := 0x8000_0000

  datatype Reduction = Reduction(kxq0: real, kxq1: real, curMin: nat, numAtCurMin: nat)

  predicate Registers(regs: seq<nat>) {
    forall i :: 0 <= i < |regs| ==> regs[i] <= MAX_RHO
  }

  function InversePower(r: nat): real {
    1.0 / Pow2(r) as real
  }

  /** A rounding that fixes every multiple of 2^-31 of at most 53 bits. */
  ghost predicate FixesUnits(fl: real -> real) {
    forall m: int :: -0x20_0000_0000_0000 <= m <= 0x20_0000_0000_0000 ==> fl(InUnits(m)) == InUnits(m)
  }

  function InUnits(m: int): real {
    m as real / UNIT as real
  }

  // ----- what the reduction should be -----

  /** The harmonic sum over all registers. */
  function Harmonic(regs: seq<nat>): real {
    if regs == [] then 0.0 else Harmonic(regs[..|regs| - 1]) + InversePower(regs[|regs| - 1])
  }

  function Zeros(regs: seq<nat>): nat {
    if regs == [] then 0 else Zeros(regs[..|regs| - 1]) + if regs[|regs| - 1] == 0 then 1 else 0
  }

  /** What a register below 32 takes away from its initial unit, in units. */
  function LowDelta(r: nat): int {
    if 0 < r < LOW_LIMIT then Pow2(31 - r) - UNIT else 0
  }

  function LowUnits(regs: seq<nat>): int {
    if regs == [] then 0 else LowUnits(regs[..|regs| - 1]) + LowDelta(regs[|regs| - 1])
  }

  /** The second accumulator, rounded after every operation. */
  function HighSum(regs: seq<nat>, fl: real -> real): real {
    if regs == [] then 0.0
    else
      var before := HighSum(regs[..|regs| - 1], fl);
      if regs[|regs| - 1] >= LOW_LIMIT then fl(before + fl(InversePower(regs[|regs| - 1]) - 1.0)) else before
  }

  /** kxq0 in units, started at one per register. */
  function Kxq0Units(regs: seq<nat>, size: nat): int {
    size * UNIT + LowUnits(regs)
  }

  /** The first accumulator and the zero count are exact; only the second one rounds. The
      current minimum is held at zero even when no register is zero. */
  function Reduced(regs: seq<nat>, fl: real -> real): Reduction {
    Reduction(InUnits(Kxq0Units(regs, |regs|)), HighSum(regs, fl), 0, Zeros(regs))
  }

  method ReduceHll8(registers: seq<nat>, lgK: nat, fl: real -> real) returns (r: Reduction)
    requires lgK <= MAX_LG_CONFIG_K && |registers| == Pow2(lgK) && Registers(registers)
    requires FixesUnits(fl)
    ensures r == Reduced(registers, fl)
  {
    var configK := Pow2(lgK);
    r := Reduction(configK as real, 0.0, 0, 0);
    assert r.kxq0 == InUnits(Kxq0Units([], configK));
    assert registers[..0] == [];
    for i := 0 to configK
      invariant r.kxq0 == InUnits(Kxq0Units(registers[..i], configK))
      invariant r.kxq1 == HighSum(registers[..i], fl)
      invariant r.curMin == 0 && r.numAtCurMin == Zeros(registers[..i])
    {
      PrefixStep(registers, i, configK, fl);
      var v := registers[i];
      if v == 0 {
        r := r.(numAtCurMin := r.numAtCurMin + 1);
        continue;
      }
      var delta := fl(InversePower(v) - 1.0);
      if v < LOW_LIMIT {
        LowStepExact(registers, lgK, i, fl);
        r := r.(kxq0 := fl(r.kxq0 + delta));
      } else {
        r := r.(kxq1 := fl(r.kxq1 + delta));
      }
    }
    assert registers[..configK] == registers;
  }

  // ----- the first accumulator is exact -----

  lemma PowerProduct(r: nat)
    requires r <= 31
    ensures Pow2(31 - r) * Pow2(r) == UNIT
  {
    Pow2Splits(31 - r, r);
    PowersOfTwo();
  }

  lemma PowerRatio(r: nat)
    requires r <= 31
    ensures InversePower(r) == InUnits(Pow2(31 - r))
    ensures Pow2(31 - r) <= UNIT
  {
    PowerProduct(r);
    UnitShare(Pow2(31 - r), Pow2(r));
  }

  lemma UnitShare(p: nat, q: nat)
    requires q > 0 && p * q == UNIT
    ensures 1.0 / q as real == p as real / UNIT as real
    ensures p <= UNIT
  {
    RealProduct(p, q);
    Reciprocal(q as real, p as real, UNIT as real);
    assert p * q == p + p * (q - 1);
  }

  lemma RealProduct(p: nat, q: nat)
    ensures (p * q) as real == p as real * q as real
  {}

  lemma Reciprocal(q: real, p: real, u: real)
    requires q > 0.0 && u > 0.0 && p * q == u
    ensures 1.0 / q == p / u
  {
    var x := 1.0 / q;
    assert x * q == 1.0;
    assert x * (p * q) == p * (x * q);
    Cancel(x, u);
  }

  lemma Cancel(x: real, u: real)
    requires u != 0.0
    ensures x * u / u == x
  {}

  lemma LowDeltaRange(r: nat)
    ensures -UNIT <= LowDelta(r) <= 0
    ensures 0 < r < LOW_LIMIT ==> InUnits(LowDelta(r)) == InversePower(r) - 1.0
  {
    if 0 < r < LOW_LIMIT {
      PowerRatio(r);
    }
  }

  /** Every intermediate value of kxq0 is a whole number of units of at most 53 bits. */
  lemma {:induction false} Kxq0Bounded(regs: seq<nat>, size: nat)
    requires |regs| <= size
    ensures (size - |regs|) * UNIT <= Kxq0Units(regs, size) <= size * UNIT
  {
    if regs != [] {
      Kxq0Bounded(regs[..|regs| - 1], size);
      LowDeltaRange(regs[|regs| - 1]);
    }
  }

  lemma PrefixStep(registers: seq<nat>, i: nat, size: nat, fl: real -> real)
    requires i < |registers|
    ensures Kxq0Units(registers[..i + 1], size) == Kxq0Units(registers[..i], size) + LowDelta(registers[i])
    ensures Zeros(registers[..i + 1]) == Zeros(registers[..i]) + if registers[i] == 0 then 1 else 0
    ensures var before := HighSum(registers[..i], fl);
            HighSum(registers[..i + 1], fl)
            == if registers[i] >= LOW_LIMIT then fl(before + fl(InversePower(registers[i]) - 1.0)) else before
  {
    assert registers[..i + 1][..i] == registers[..i];
  }

  lemma LowStepExact(registers: seq<nat>, lgK: nat, i: nat, fl: real -> real)
    requires lgK <= MAX_LG_CONFIG_K && |registers| == Pow2(lgK) && i < |registers|
    requires FixesUnits(fl) && 0 < registers[i] < LOW_LIMIT
    ensures var before := InUnits(Kxq0Units(registers[..i], |registers|));
            fl(before + fl(InversePower(registers[i]) - 1.0)) == InUnits(Kxq0Units(registers[..i + 1], |registers|))
  {
    var v, size := registers[i], |registers|;
    PrefixStep(registers, i, size, fl);
    ConfigRange(lgK);
    LowDeltaRange(v);
    Kxq0Bounded(registers[..i], size);
    Kxq0Bounded(registers[..i + 1], size);
    var m := Kxq0Units(registers[..i], size);
    assert fl(InUnits(LowDelta(v))) == InUnits(LowDelta(v));
    assert InUnits(m) + InUnits(LowDelta(v)) == InUnits(m + LowDelta(v));
  }

  lemma ConfigRange(lgK: nat)
    requires lgK <= MAX_LG_CONFIG_K
    ensures Pow2(lgK) <= 0x20_0000
  {
    Pow2Monotone(lgK, MAX_LG_CONFIG_K);
    PowersOfTwo();
  }

  // ----- conservation -----

  /** The share of the registers below 32 in the harmonic sum, and of the others. */
  function LowSum(regs: seq<nat>): real {
    if regs == [] then 0.0
    else LowSum(regs[..|regs| - 1]) + if regs[|regs| - 1] < LOW_LIMIT then InversePower(regs[|regs| - 1]) else 0.0
  }

  function HighShare(regs: seq<nat>): real {
    if regs == [] then 0.0
    else HighShare(regs[..|regs| - 1]) + if regs[|regs| - 1] < LOW_LIMIT then 0.0 else InversePower(regs[|regs| - 1])
  }

  function HighCount(regs: seq<nat>): nat {
    if regs == [] then 0 else HighCount(regs[..|regs| - 1]) + if regs[|regs| - 1] < LOW_LIMIT then 0 else 1
  }

  /** Each register from 32 on leaves its initial unit in the first accumulator, and the
      second one takes it back. */
  lemma {:induction false} AccumulatorSplit(regs: seq<nat>)
    ensures InUnits(Kxq0Units(regs, |regs|)) == LowSum(regs) + HighCount(regs) as real
    ensures HighSum(regs, x => x) == HighShare(regs) - HighCount(regs) as real
  {
    if regs == [] {
      assert InUnits(0) == 0.0;
    } else {
      var n := |regs| - 1;
      var v := regs[n];
      AccumulatorSplit(regs[..n]);
      LowDeltaRange(v);
      assert Kxq0Units(regs, n + 1) == Kxq0Units(regs[..n], n) + LowDelta(v) + UNIT;
      assert InUnits(Kxq0Units(regs, n + 1)) == InUnits(Kxq0Units(regs[..n], n)) + InUnits(LowDelta(v)) + 1.0;
      assert InversePower(0) == 1.0;
    }
  }

  /** Without rounding the two accumulators add up to the harmonic sum. */
  lemma HarmonicConserved(regs: seq<nat>)
    ensures InUnits(Kxq0Units(regs, |regs|)) + HighSum(regs, x => x) == Harmonic(regs)
  {
    AccumulatorSplit(regs);
    HarmonicShares(regs);
  }

  lemma {:induction false} HarmonicShares(regs: seq<nat>)
    ensures Harmonic(regs) == LowSum(regs) + HighShare(regs)
  {
    if regs != [] {
      HarmonicShares(regs[..|regs| - 1]);
    }
  }

  lemma {:induction false} HighCountZero(regs: seq<nat>)
    ensures HighCount(regs) == 0 <==> forall r :: r in regs ==> r < LOW_LIMIT
  {
    if regs != [] {
      var n := |regs| - 1;
      HighCountZero(regs[..n]);
      assert regs == regs[..n] + [regs[n]];
      if HighCount(regs) == 0 {
        forall r | r in regs ensures r < LOW_LIMIT {
          assert r in regs[..n] || r == regs[n];
        }
      } else if HighCount(regs[..n]) == 0 {
        assert regs[n] in regs && regs[n] >= LOW_LIMIT;
      } else {
        var r :| r in regs[..n] && r >= LOW_LIMIT;
        assert r in regs;
      }
    }
  }

  /** Each accumulator is the harmonic share of its own registers exactly if no register
      has reached 32. */
  lemma SplitBySizeExactly(regs: seq<nat>)
    ensures InUnits(Kxq0Units(regs, |regs|)) == LowSum(regs) <==> forall r :: r in regs ==> r < LOW_LIMIT
    ensures HighSum(regs, x => x) == HighShare(regs) <==> forall r :: r in regs ==> r < LOW_LIMIT
  {
    AccumulatorSplit(regs);
    HighCountZero(regs);
  }

  lemma {:induction false} HighCountBounded(regs: seq<nat>)
    ensures HighCount(regs) <= |regs|
  {
    if regs != [] {
      HighCountBounded(regs[..|regs| - 1]);
    }
  }

  /** An array of registers at 32: either sum is off by one unit per register. */
  lemma AllThirtyTwosMissplit(lgK: nat)
    ensures var regs := seq(Pow2(lgK), _ => LOW_LIMIT);
            && Registers(regs) && HighCount(regs) == |regs|
            && InUnits(Kxq0Units(regs, |regs|)) == LowSum(regs) + |regs| as real != LowSum(regs)
            && HighSum(regs, x => x) == HighShare(regs) - |regs| as real != HighShare(regs)
  {
    var regs: seq<nat> := seq(Pow2(lgK), _ => LOW_LIMIT);
    AccumulatorSplit(regs);
    AllHigh(regs);
  }

  lemma {:induction false} AllHigh(regs: seq<nat>)
    requires forall i :: 0 <= i < |regs| ==> regs[i] >= LOW_LIMIT
    ensures HighCount(regs) == |regs|
  {
    if regs != [] {
      AllHigh(regs[..|regs| - 1]);
    }
  }

  /** What the registers from 32 on contribute to the second accumulator, in order. */
  function HighTerms(regs: seq<nat>): seq<real> {
    if regs == [] then []
    else HighTerms(regs[..|regs| - 1]) + if regs[|regs| - 1] < 32 then [] else [InversePower(regs[|regs| - 1]) - 1.0]
  }

  /** A sum in double arithmetic, term by term. */
  function RoundedSum(terms: seq<real>, fl: real -> real): real {
    if terms == [] then 0.0 else fl(RoundedSum(terms[..|terms| - 1], fl) + fl(terms[|terms| - 1]))
  }

  lemma {:induction false} HighSumRounds(regs: seq<nat>, fl: real -> real)
    ensures HighSum(regs, fl) == RoundedSum(HighTerms(regs), fl)
  {
    if regs != [] {
      var n := |regs| - 1;
      HighSumRounds(regs[..n], fl);
      if regs[n] >= 32 {
        RoundedAppend(HighTerms(regs[..n]), InversePower(regs[n]) - 1.0, fl);
      } else {
        assert HighTerms(regs[..n]) + [] == HighTerms(regs[..n]);
      }
    }
  }

  lemma RoundedAppend(terms: seq<real>, term: real, fl: real -> real)
    ensures RoundedSum(terms + [term], fl) == fl(RoundedSum(terms, fl) + fl(term))
  {
    assert (terms + [term])[..|terms|] == terms;
  }

  // ----- the current minimum -----

  /** The least register value. */
  function Minimum(regs: seq<nat>): (m: nat)
    requires regs != []
    ensures m in regs && forall r :: r in regs ==> m <= r
  {
    var n := |regs| - 1;
    assert regs == regs[..n] + [regs[n]];
    if n == 0 then regs[0]
    else
      var m := Minimum(regs[..n]);
      if regs[n] < m then regs[n] else m
  }

  lemma {:induction false} ZerosCounted(regs: seq<nat>)
    ensures Zeros(regs) == multiset(regs)[0]
  {
    if regs != [] {
      var n := |regs| - 1;
      ZerosCounted(regs[..n]);
      assert regs == regs[..n] + [regs[n]];
    }
  }

  /** The reported minimum, and the number of registers at it, are the true ones exactly if
      some register is zero. */
  lemma CurMinExactly(regs: seq<nat>, fl: real -> real)
    requires regs != []
    ensures Reduced(regs, fl).curMin == Minimum(regs) <==> 0 in regs
    ensures Reduced(regs, fl).numAtCurMin == multiset(regs)[Minimum(regs)] <==> 0 in regs
  {
    ZerosCounted(regs);
    assert Minimum(regs) in multiset(regs);
    assert 0 in regs <==> 0 in multiset(regs);
  }

  /** An array of ones: its minimum is 1, the code reports 0 and no register at it. */
  lemma AllOnesMisreported(lgK: nat, fl: real -> real)
    ensures var regs := seq(Pow2(lgK), _ => 1);
            && regs != [] && Registers(regs)
            && Minimum(regs) == 1 && Reduced(regs, fl).curMin == 0 && Reduced(regs, fl).numAtCurMin == 0
  {
    var regs: seq<nat> := seq(Pow2(lgK), _ => 1);
    assert regs[0] == 1;
    assert forall r :: r in regs ==> r == 1;
    ZerosCounted(regs);
  }

  /** The whole result in terms of the registers. */
  lemma ReducedExactly(regs: seq<nat>, fl: real -> real)
    ensures var r := Reduced(regs, fl);
            && r.kxq0 == LowSum(regs) + HighCount(regs) as real
            && r.kxq1 == RoundedSum(HighTerms(regs), fl)
            && r.curMin == 0
            && r.numAtCurMin == multiset(regs)[0]
            && (r.numAtCurMin == |regs| <==> forall i :: 0 <= i < |regs| ==> regs[i] == 0)
  {
    AccumulatorSplit(regs);
    HighSumRounds(regs, fl);
    ZerosCounted(regs);
    EmptyExactly(regs);
  }

  // ----- order -----

  /** kxq0 and the zero count do not depend on the order of the registers. */
  lemma {:induction false} OrderIrrelevant(a: seq<nat>, b: seq<nat>)
    requires multiset(a) == multiset(b)
    ensures |a| == |b| && LowUnits(a) == LowUnits(b) && Zeros(a) == Zeros(b)
  {
    assert |multiset(a)| == |a| && |multiset(b)| == |b|;
    if a != [] {
      var n := |a| - 1;
      var j := Occurrence(b, a[n]);
      LastRemoved(a);
      RemoveAt(b, j);
      OrderIrrelevant(a[..n], b[..j] + b[j + 1..]);
      Extract(b, j);
    }
  }

  lemma Occurrence(b: seq<nat>, r: nat) returns (j: nat)
    requires r in multiset(b)
    ensures j < |b| && b[j] == r
  {
    j :| j < |b| && b[j] == r;
  }

  lemma LastRemoved(a: seq<nat>)
    requires a != []
    ensures var n := |a| - 1;
            multiset(a[..n]) == multiset(a) - multiset{a[n]} && a[n] in multiset(a)
  {
    var n := |a| - 1;
    assert a == a[..n] + [a[n]];
  }

  lemma RemoveAt(b: seq<nat>, j: nat)
    requires j < |b|
    ensures multiset(b[..j] + b[j + 1..]) == multiset(b) - multiset{b[j]}
  {
    assert b == b[..j] + [b[j]] + b[j + 1..];
  }

  lemma {:induction false} ZerosBounded(regs: seq<nat>)
    ensures Zeros(regs) <= |regs|
  {
    if regs != [] {
      ZerosBounded(regs[..|regs| - 1]);
    }
  }

  /** The zero count equals the array size exactly if every register is zero. */
  lemma {:induction false} EmptyExactly(regs: seq<nat>)
    ensures Zeros(regs) == |regs| <==> forall i :: 0 <= i < |regs| ==> regs[i] == 0
  {
    if regs != [] {
      var n := |regs| - 1;
      ZerosBounded(regs[..n]);
      EmptyExactly(regs[..n]);
      assert forall i :: 0 <= i < n ==> regs[..n][i] == regs[i];
    }
  }

  lemma {:induction false} Extract(b: seq<nat>, j: nat)
    requires j < |b|
    ensures var rest := b[..j] + b[j + 1..];
            && LowUnits(b) == LowUnits(rest) + LowDelta(b[j])
            && Zeros(b) == Zeros(rest) + if b[j] == 0 then 1 else 0
  {
    var n := |b| - 1;
    var rest := b[..j] + b[j + 1..];
    if j == n {
      assert rest == b[..n];
    } else {
      Extract(b[..n], j);
      assert rest[..n - 1] == b[..n][..j] + b[..n][j + 1..];
      assert rest[n - 1] == b[n];
    }
  }
}
