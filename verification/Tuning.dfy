/** Sizing decisions: the grid of a launch, the starting theta, and how many keys the next
    pass of an update should take. Floating-point quantities are real numbers here. */
module Tuning {
  import opened DevicePrimitives
  import opened ThetaSpec
  import opened ScreenKernel

  const MIN_LG_K: nat := 5
  const MAX_LG_K: nat := 26
  const CHUNK_TARGET_MULTIPLE: nat := 16
  const MIN_CHUNK_KEYS: nat := 0x10_0000 // 2^20
  const MIN_SURVIVOR_BUDGET: nat := 0x40_0000 // 2^22
  const MAX_CHUNK_GROWTH: nat := 64
  const MAX_BLOCKS: nat := 0x7fff_ffff

  function GridSize(count: nat): nat {
    Min((count + TILE_KEYS - 1) / TILE_KEYS, MAX_BLOCKS)
  }

  /** A launch sized by GridSize visits all its keys in the first tile step of every warp,
      unless the block limit caps it. */
  lemma GridCoversInOneStep(c: Launch, w: nat)
    requires c.grid == GridSize(|c.hashes|) && |c.hashes| > 0
    ensures c.grid > 0
    ensures (c.grid - 1) * TILE_KEYS < |c.hashes| && c.grid <= 0x7fff_ffff
    ensures (|c.hashes| <= MAX_BLOCKS * TILE_KEYS) <==> Exited(c, 0, 1)
    ensures |c.hashes| <= MAX_BLOCKS * TILE_KEYS ==> Exited(c, w, 1)
  {}

  /** `max_theta` is 2^63 - 1, but becomes 2^63 when it is converted to a double. */
  const TWO_TO_63: nat := MAX_THETA + 1

  /** The starting theta for sampling probability p, or 0 if p is rejected. */
  function CheckedTheta(p: real): nat {
    var theta := if 0.0 < p < 1.0 then (TWO_TO_63 as real * p).Floor else MAX_THETA;
    if 0.0 < p <= 1.0 && theta != 0 then theta else 0
  }

  /** Probabilities in [2^-63, 1] are accepted, all others are rejected. */
  lemma CheckedThetaRange(p: real)
    ensures CheckedTheta(p) <= MAX_THETA
    ensures CheckedTheta(p) > 0 <==> 1.0 <= TWO_TO_63 as real * p && p <= 1.0
  {
    if 0.0 < p < 1.0 {
      assert TWO_TO_63 as real * p < TWO_TO_63 as real;
    }
  }

  /** An accepted probability lets its own fraction of the hash space pass. */
  lemma CheckedThetaExactly(p: real)
    requires CheckedTheta(p) > 0
    ensures p < 1.0 ==> 0x8000_0000_0000_0000 as real * p - 1.0 < CheckedTheta(p) as real
    ensures CheckedTheta(p) as real <= 0x8000_0000_0000_0000 as real * p
    ensures p == 1.0 ==> CheckedTheta(p) == 0x7fff_ffff_ffff_ffff
  {}

  function ThetaRate(theta: nat): (rate: real)
    requires theta <= MAX_THETA
    ensures 0.0 <= rate <= 1.0
    ensures theta > 0 ==> rate > 0.0
  {
    theta as real / MAX_THETA as real
  }

  /** The measured factor doubled, but at most 1: how far to trust the last pass. */
  function Hedged(duplicateFactor: real): (hedged: real)
    requires duplicateFactor >= 0.0
    ensures 0.0 <= hedged <= 1.0
  {
    if 2.0 * duplicateFactor < 1.0 then 2.0 * duplicateFactor else 1.0
  }

  /** How many keys out of one are expected to survive. */
  function SurvivalRate(theta: nat, duplicateFactor: real): (rate: real)
    requires theta <= MAX_THETA && duplicateFactor >= 0.0
    ensures 0.0 <= rate <= 1.0
  {
    ProductAtMostOne(ThetaRate(theta), Hedged(duplicateFactor));
    ThetaRate(theta) * Hedged(duplicateFactor)
  }

  /** The survivors to expect of n keys, with a margin of one tenth. */
  function Expected(rate: real, n: nat): real {
    1.1 * rate * n as real
  }

  /** The most keys, of those that remain, that are expected to fit the budget. */
  function Prediction(rate: real, budget: nat, remaining: nat): (n: nat)
    requires 0.0 <= rate <= 1.0
    ensures n <= remaining
    ensures Expected(rate, n) <= budget as real
    ensures n < remaining ==> budget as real < Expected(rate, n + 1)
  {
    var target := if rate > 0.0 then budget as real / (1.1 * rate) else remaining as real;
    assert target >= 0.0 by {
      if rate > 0.0 { QuotientNonNegative(budget as real, 1.1 * rate); }
    }
    var n := if target >= remaining as real then remaining else target.Floor;
    if rate > 0.0 then
      QuotientBrackets(budget as real, 1.1 * rate, n as real);
      QuotientBrackets(budget as real, 1.1 * rate, (n + 1) as real);
      n
    else n
  }

  lemma QuotientBrackets(n: real, d: real, q: real)
    requires d > 0.0
    ensures q <= n / d <==> d * q <= n
  {
    var exact := n / d;
    assert exact * d == n;
    if q <= exact {
      NonNegativeProduct(d, exact - q);
      assert d * (exact - q) == d * exact - d * q;
    } else {
      PositiveProduct(d, q - exact);
      assert d * (q - exact) == d * q - d * exact;
    }
  }

  /** How many keys the next pass should take: as many as predicted, but at maximum theta no
      more than twice the previous chunk, so that distinct inputs tighten theta early, and
      where the factor is hedged no more than 64 times the previous chunk. */
  function NextChunk(theta: nat, k: nat, budget: nat, remaining: nat, previous: nat, duplicateFactor: real)
    : (chunk: nat)
    requires theta <= MAX_THETA && remaining > 0 && duplicateFactor >= 0.0
    ensures 1 <= chunk <= remaining
  {
    var predicted := Prediction(SurvivalRate(theta, duplicateFactor), budget, remaining);
    Limited(theta == MAX_THETA, k, previous, Hedged(duplicateFactor) < 1.0, predicted, remaining)
  }

  function Limited(atMaximum: bool, k: nat, previous: nat, hedging: bool, predicted: nat, remaining: nat): (chunk: nat)
    requires remaining > 0
    ensures 1 <= chunk <= remaining
  {
    var grown := if hedging && previous != 0 && predicted / MAX_CHUNK_GROWTH > previous
                 then previous * MAX_CHUNK_GROWTH else predicted;
    var sized := Max(grown, 1);
    if atMaximum then
      Min(Min(Max(Max(CHUNK_TARGET_MULTIPLE * k, MIN_CHUNK_KEYS), previous * 2), sized), remaining)
    else Min(Max(sized, MIN_CHUNK_KEYS), remaining)
  }

  lemma LimitedExactly(atMaximum: bool, k: nat, previous: nat, hedging: bool, predicted: nat, remaining: nat)
    requires predicted <= remaining && remaining > 0
    ensures var n := Limited(atMaximum, k, previous, hedging, predicted, remaining);
            var doubling := Max(Max(16 * k, 0x10_0000), 2 * previous);
            && (n > 0x10_0000 ==>
                  && n <= predicted
                  && (atMaximum ==> n <= doubling)
                  && (hedging && previous != 0 ==> n < 64 * (previous + 1)))
            && (n < remaining ==>
                  || predicted <= n
                  || (atMaximum && n >= doubling)
                  || (hedging && previous != 0 && n >= 64 * previous))
  {}

  /** With the constructor's budget a chunk is long unless fewer keys remain. */
  lemma NextChunkLong(theta: nat, k: nat, budget: nat, remaining: nat, previous: nat, duplicateFactor: real)
    requires theta <= MAX_THETA && remaining > 0 && duplicateFactor >= 0.0
    requires budget >= MIN_SURVIVOR_BUDGET && (previous == 0 || previous >= MIN_CHUNK_KEYS)
    ensures NextChunk(theta, k, budget, remaining, previous, duplicateFactor) >= Min(MIN_CHUNK_KEYS, remaining)
  {
    var rate := SurvivalRate(theta, duplicateFactor);
    var predicted := Prediction(rate, budget, remaining);
    if predicted < remaining {
      RateAtMostOne(rate, predicted + 1);
    }
  }

  /** The exact survivor count of a pass that overflowed usually lets the retry fit at
      once; halving guarantees progress regardless. */
  function RetryChunk(theta: nat, k: nat, budget: nat, remaining: nat, previous: nat, chunk: nat, outcome: nat)
    : (smaller: nat)
    requires 0 < theta <= MAX_THETA && 0 < budget < outcome <= chunk <= remaining
    ensures 1 <= smaller <= chunk / 2
    ensures budget >= MIN_SURVIVOR_BUDGET && (previous == 0 || previous >= MIN_CHUNK_KEYS) ==> smaller >= MIN_CHUNK_KEYS
  {
    RetryLong(theta, k, budget, remaining, previous, chunk, outcome);
    Min(chunk / 2, NextChunk(theta, k, budget, remaining, previous, DuplicateFactor(theta, chunk, outcome)))
  }

  /** A pass's survivors per key over the fraction of hashes that theta lets through. */
  function DuplicateFactor(theta: nat, chunk: nat, outcome: nat): (factor: real)
    requires 0 < theta <= MAX_THETA && chunk > 0
    ensures factor >= 0.0
  {
    QuotientNonNegative(outcome as real, chunk as real);
    QuotientNonNegative(outcome as real / chunk as real, ThetaRate(theta));
    outcome as real / chunk as real / ThetaRate(theta)
  }

  /** A pass's survivors are what the measured factor predicts for its own keys. */
  lemma DuplicateFactorExplains(theta: nat, chunk: nat, outcome: nat)
    requires 0 < theta <= MAX_THETA && chunk > 0
    ensures DuplicateFactor(theta, chunk, outcome) * ThetaRate(theta) * chunk as real == outcome as real
  {
    var perKey := outcome as real / chunk as real;
    assert perKey / ThetaRate(theta) * ThetaRate(theta) == perKey;
  }

  lemma RetryLong(theta: nat, k: nat, budget: nat, remaining: nat, previous: nat, chunk: nat, outcome: nat)
    requires 0 < theta <= MAX_THETA && budget < outcome <= chunk <= remaining
    ensures budget >= MIN_SURVIVOR_BUDGET && (previous == 0 || previous >= MIN_CHUNK_KEYS) ==>
              NextChunk(theta, k, budget, remaining, previous, DuplicateFactor(theta, chunk, outcome)) >= MIN_CHUNK_KEYS
  {
    if budget >= MIN_SURVIVOR_BUDGET && (previous == 0 || previous >= MIN_CHUNK_KEYS) {
      NextChunkLong(theta, k, budget, remaining, previous, DuplicateFactor(theta, chunk, outcome));
    }
  }

  lemma RateAtMostOne(rate: real, n: nat)
    requires rate <= 1.0
    ensures Expected(rate, n) <= 1.1 * n as real
  {
    NonNegativeProduct(n as real, 1.0 - rate);
  }

  /** A retry takes half the keys, or fewer if a new prediction says so: the one from the
      factor that explains the pass that overflowed. */
  lemma RetryChunkExactly(theta: nat, k: nat, budget: nat, remaining: nat, previous: nat, chunk: nat, outcome: nat,
                          factor: real)
    requires 0 < theta <= MAX_THETA && 0 < budget < outcome <= chunk <= remaining
    requires factor >= 0.0 && factor * ThetaRate(theta) * chunk as real == outcome as real
    ensures RetryChunk(theta, k, budget, remaining, previous, chunk, outcome)
         == Min(chunk / 2, NextChunk(theta, k, budget, remaining, previous, factor))
  {
    DuplicateFactorExplains(theta, chunk, outcome);
    SameFactor(factor, DuplicateFactor(theta, chunk, outcome), ThetaRate(theta), chunk as real, outcome as real);
  }

  lemma SameFactor(a: real, b: real, rate: real, n: real, product: real)
    requires rate > 0.0 && n > 0.0 && a * rate * n == product && b * rate * n == product
    ensures a == b
  {
    Cancel(a * rate, b * rate, n);
    Cancel(a, b, rate);
  }

  lemma Cancel(a: real, b: real, n: real)
    requires n > 0.0 && a * n == b * n
    ensures a == b
  {
    assert a * n / n == a && b * n / n == b;
  }

  /** A chunk of more than 2^20 keys is expected to fit the budget and respects both limits
      on growth; one that leaves keys over is as long as the budget and the limits allow. */
  lemma NextChunkExactly(theta: nat, k: nat, budget: nat, remaining: nat, previous: nat, duplicateFactor: real)
    requires theta <= MAX_THETA && remaining > 0 && duplicateFactor >= 0.0
    ensures var n := NextChunk(theta, k, budget, remaining, previous, duplicateFactor);
            var doubling := Max(Max(16 * k, 0x10_0000), 2 * previous);
            var hedging := 2.0 * duplicateFactor < 1.0 && previous != 0;
            var rate := SurvivalRate(theta, duplicateFactor);
            && (n > 0x10_0000 ==>
                  && Expected(rate, n) <= budget as real
                  && (theta == MAX_THETA ==> n <= doubling)
                  && (hedging ==> n < 64 * (previous + 1)))
            && (n < remaining ==>
                  || Expected(rate, n + 1) > budget as real
                  || (theta == MAX_THETA && n >= doubling)
                  || (hedging && n >= 64 * previous))
  {
    var rate := SurvivalRate(theta, duplicateFactor);
    var predicted := Prediction(rate, budget, remaining);
    var n := NextChunk(theta, k, budget, remaining, previous, duplicateFactor);
    LimitedExactly(theta == MAX_THETA, k, previous, Hedged(duplicateFactor) < 1.0, predicted, remaining);
    if n <= predicted {
      ExpectedMonotone(rate, n, predicted);
    }
    if predicted <= n < remaining {
      ExpectedMonotone(rate, predicted + 1, n + 1);
    }
  }

  lemma ExpectedMonotone(rate: real, m: nat, n: nat)
    requires rate >= 0.0 && m <= n
    ensures Expected(rate, m) <= Expected(rate, n)
  {
    NonNegativeProduct(1.1 * rate, (n - m) as real);
    assert 1.1 * rate * (n - m) as real == 1.1 * rate * n as real - 1.1 * rate * m as real;
  }

  lemma PositiveProduct(a: real, b: real)
    requires a > 0.0 && b > 0.0
    ensures a * b > 0.0
  {}

  lemma NonNegativeProduct(a: real, b: real)
    requires a >= 0.0 && b >= 0.0
    ensures a * b >= 0.0
  {}

  lemma ProductAtMostOne(a: real, b: real)
    requires 0.0 <= a <= 1.0 && 0.0 <= b <= 1.0
    ensures 0.0 <= a * b <= 1.0
  {
    NonNegativeProduct(a, b);
    NonNegativeProduct(1.0 - a, b);
    assert (1.0 - a) * b == b - a * b;
  }

  lemma QuotientNonNegative(n: real, d: real)
    requires n >= 0.0 && d > 0.0
    ensures n / d >= 0.0
  {}

  // ----- bounds on retries and on the number of chunks -----

  function Total(sizes: seq<nat>): nat {
    if sizes == [] then 0 else Total(sizes[..|sizes| - 1]) + sizes[|sizes| - 1]
  }

  lemma TotalAppend(sizes: seq<nat>, n: nat)
    ensures Total(sizes + [n]) == Total(sizes) + n
  {
    assert (sizes + [n])[..|sizes|] == sizes;
  }

  function Last(chunks: seq<nat>): nat {
    if chunks == [] then 0 else chunks[|chunks| - 1]
  }

  /** The sizes tried for one chunk: only a pass that overflowed the budget is tried again,
      with at most half as many keys. */
  ghost predicate Attempts(sizes: seq<nat>, budget: nat) {
    && sizes != [] && Last(sizes) > 0
    && var earlier := sizes[..|sizes| - 1];
       earlier != [] ==>
         Attempts(earlier, budget) && Last(earlier) > budget && Last(sizes) <= Last(earlier) / 2
  }

  lemma AttemptsExtend(sizes: seq<nat>, budget: nat, next: nat)
    requires Attempts(sizes, budget)
    requires Last(sizes) > budget && 0 < next <= Last(sizes) / 2
    ensures Attempts(sizes + [next], budget)
  {
    assert (sizes + [next])[..|sizes|] == sizes;
  }

  /** All attempts together screen fewer than twice the keys of the first one. */
  lemma {:induction false} AttemptsScreenLittle(sizes: seq<nat>, budget: nat)
    requires Attempts(sizes, budget)
    ensures Total(sizes) + Last(sizes) <= 2 * sizes[0]
    ensures Total(sizes) < 2 * sizes[0]
  {
    var earlier := sizes[..|sizes| - 1];
    if earlier == [] {
      assert Total(earlier) == 0;
    } else {
      AttemptsScreenLittle(earlier, budget);
    }
  }

  /** r retries need a first attempt of more than 2^(r-1) budgets: the number of retries
      is at most the logarithm of that ratio, rounded up. */
  lemma {:induction false} AttemptsFew(sizes: seq<nat>, budget: nat)
    requires Attempts(sizes, budget)
    ensures Pow2(|sizes| - 1) * Last(sizes) <= sizes[0]
    ensures |sizes| > 1 ==> Pow2(|sizes| - 2) * budget < sizes[0]
  {
    var earlier := sizes[..|sizes| - 1];
    if earlier != [] {
      AttemptsFew(earlier, budget);
      var p := Pow2(|sizes| - 2);
      Halved(p, Last(sizes), Last(earlier));
      Scaled(p, budget, Last(earlier));
    }
  }

  lemma Halved(p: nat, a: nat, b: nat)
    requires 2 * a <= b
    ensures 2 * p * a <= p * b
  {
    assert p * (b - 2 * a) >= 0;
    assert p * (b - 2 * a) == p * b - 2 * p * a;
  }

  lemma Scaled(p: nat, a: nat, b: nat)
    requires p > 0 && a < b
    ensures p * a < p * b
  {}

  /** Chunks of at least MIN_CHUNK_KEYS each, the last one excepted, are at most
      ceil(count / MIN_CHUNK_KEYS) many. */
  lemma {:induction false} ChunksFew(chunks: seq<nat>)
    requires forall i :: 0 <= i < |chunks| - 1 ==> chunks[i] >= MIN_CHUNK_KEYS
    requires chunks != [] ==> chunks[|chunks| - 1] > 0
    ensures |chunks| <= (Total(chunks) + MIN_CHUNK_KEYS - 1) / MIN_CHUNK_KEYS
  {
    if chunks != [] {
      var n := |chunks| - 1;
      FullChunks(chunks[..n]);
    }
  }

  lemma {:induction false} FullChunks(chunks: seq<nat>)
    requires forall i :: 0 <= i < |chunks| ==> chunks[i] >= MIN_CHUNK_KEYS
    ensures Total(chunks) >= |chunks| * MIN_CHUNK_KEYS
  {
    if chunks != [] {
      FullChunks(chunks[..|chunks| - 1]);
    }
  }

  /** With the constructor's budget a chunk that follows long ones is long, or the last. */
  ghost predicate LongEnough(budget: nat, previous: nat, chunk: nat, remaining: nat) {
    budget >= MIN_SURVIVOR_BUDGET && (previous == 0 || previous >= MIN_CHUNK_KEYS) ==>
      chunk >= Min(MIN_CHUNK_KEYS, remaining)
  }

  /** The chunks committed so far are not empty and, with the constructor's budget, long,
      except the one that finishes the batch. */
  ghost predicate ChunksLong(budget: nat, chunks: seq<nat>, finished: bool) {
    && (forall i :: 0 <= i < |chunks| ==> chunks[i] > 0)
    && (budget >= MIN_SURVIVOR_BUDGET ==>
          forall i :: 0 <= i < |chunks| && (i < |chunks| - 1 || !finished) ==> chunks[i] >= MIN_CHUNK_KEYS)
  }

  lemma ChunksExtend(budget: nat, chunks: seq<nat>, chunk: nat, remaining: nat)
    requires ChunksLong(budget, chunks, false)
    requires 1 <= chunk <= remaining && LongEnough(budget, Last(chunks), chunk, remaining)
    ensures ChunksLong(budget, chunks + [chunk], chunk == remaining)
    ensures Total(chunks + [chunk]) == Total(chunks) + chunk
  {
    TotalAppend(chunks, chunk);
  }

  /** Every committed chunk is the last of the sizes tried for it. */
  ghost predicate Tried(chunks: seq<nat>, tries: seq<seq<nat>>, budget: nat) {
    && |tries| == |chunks|
    && (chunks != [] ==>
          var n := |chunks| - 1;
          Tried(chunks[..n], tries[..n], budget) && Attempts(tries[n], budget) && Last(tries[n]) == chunks[n])
  }

  lemma TriedExtend(chunks: seq<nat>, tries: seq<seq<nat>>, budget: nat, attempts: seq<nat>)
    requires Tried(chunks, tries, budget) && Attempts(attempts, budget)
    ensures Tried(chunks + [Last(attempts)], tries + [attempts], budget)
  {
    assert (chunks + [Last(attempts)])[..|chunks|] == chunks && (tries + [attempts])[..|chunks|] == tries;
  }

  /** What an update of `count` keys has done: `chunks` committed up to `offset`, the last one
      of size `previous`, with the sizes tried for each. */
  ghost predicate Ledger(budget: nat, count: nat, offset: nat, previous: nat, chunks: seq<nat>, tries: seq<seq<nat>>) {
    && offset == Total(chunks) <= count
    && previous == Last(chunks)
    && ChunksLong(budget, chunks, offset == count)
    && Tried(chunks, tries, budget)
  }

  lemma LedgerExtends(budget: nat, count: nat, offset: nat, previous: nat, chunks: seq<nat>, tries: seq<seq<nat>>,
                      attempts: seq<nat>)
    requires Ledger(budget, count, offset, previous, chunks, tries) && offset < count
    requires Attempts(attempts, budget) && Last(attempts) <= count - offset
    requires LongEnough(budget, previous, Last(attempts), count - offset)
    ensures var chunk := Last(attempts);
            Ledger(budget, count, offset + chunk, chunk, chunks + [chunk], tries + [attempts])
  {
    ChunksExtend(budget, chunks, Last(attempts), count - offset);
    TriedExtend(chunks, tries, budget, attempts);
  }

  /** An update of `count` keys takes at most ceil(count / MIN_CHUNK_KEYS) rounds. */
  lemma ChunkCount(budget: nat, chunks: seq<nat>, finished: bool, count: nat)
    requires Total(chunks) <= count && ChunksLong(budget, chunks, finished)
    ensures budget >= MIN_SURVIVOR_BUDGET ==> |chunks| <= (count + MIN_CHUNK_KEYS - 1) / MIN_CHUNK_KEYS
  {
    if budget >= MIN_SURVIVOR_BUDGET {
      ChunksFew(chunks);
    }
  }
}
