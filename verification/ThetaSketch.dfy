/** The sketch object: an ordered buffer of retained hashes, a threshold, and the chunked
    update and set operations that replace them. Any allocation or copy may fail. */
module ThetaSketch {
  import opened DevicePrimitives
  import opened HashSets
  import opened LittleEndian
  import opened ScreenKernel
  import opened ScreenLaunch
  import opened ScreenSafety
  import opened ThetaImage
  import opened ThetaReload
  import opened ThetaSpec
  import opened Tuning

  datatype Status = Completed | SeedMismatch | DeviceFailure

  /** A device allocation of `capacity` hashes of which the first |data| are results. */
  datatype Buffer = Buffer(data: seq<nat>, capacity: nat)

  /** The output buffer after a pass: slots that were never written hold what was in memory
      before, which may be anything. */
  function Memory(out: seq<Slot>, stale: seq<nat>): seq<nat> {
    seq<nat>(|out|, p requires 0 <= p < |out| =>
      match out[p]
      case Written(hash) => hash
      case Unwritten => if p < |stale| then stale[p] else 0)
  }

  /** Installing a sorted result is settling on the set it enumerates. */
  lemma InstallSettles(v: View, data: seq<nat>, s: set<nat>, theta: nat)
    requires StrictlySorted(data) && Elements(data) == Below(s, theta)
    ensures var w := Settle(v, s, theta);
            if |data| > v.k
            then w.theta == data[v.k] && w.retained == Elements(data[..v.k])
            else w.theta == theta && w.retained == Elements(data)
  {
    forall i | 0 <= i < |data| ensures 0 < data[i] < theta {
      assert data[i] in Elements(data);
    }
    TruncationCuts(data, v.k, theta);
    assert Below(Elements(data), theta) == Below(s, theta);
    CutOfBelow(Elements(data), s, v.k, theta);
  }

  lemma CommitExtends(v: View, current: View, keys: seq<nat>, offset: nat, chunk: nat)
    requires offset + chunk <= |keys|
    requires current == Update(v, keys[..offset])
    ensures Update(current, keys[offset..][..chunk]) == Update(v, keys[..offset + chunk])
  {
    UpdateSplits(v, keys[..offset], keys[offset..][..chunk]);
    PrefixGrows(keys, offset, chunk);
  }

  /** The sizes tried for a chunk at one theta: each but the last took in more surviving keys
      than the budget, and the size after it is the retry that this outcome asks for. */
  ghost predicate Retried(sizes: seq<nat>, keys: seq<nat>, theta: nat, k: nat, budget: nat, previous: nat)
    requires 0 < theta <= MAX_THETA && 0 < budget
  {
    && sizes != []
    && var earlier := sizes[..|sizes| - 1];
       earlier != [] ==>
         && Retried(earlier, keys, theta, k, budget, previous)
         && Last(earlier) <= |keys|
         && exists outcome: nat ::
              && budget < outcome <= Last(earlier) && outcome <= |Survivors(keys[..Last(earlier)], theta)|
              && Last(sizes) == RetryChunk(theta, k, budget, |keys|, previous, Last(earlier), outcome)
  }

  lemma RetriedExtend(sizes: seq<nat>, keys: seq<nat>, theta: nat, k: nat, budget: nat, previous: nat, outcome: nat)
    requires 0 < theta <= MAX_THETA && 0 < budget
    requires Retried(sizes, keys, theta, k, budget, previous)
    requires budget < outcome <= Last(sizes) <= |keys| && outcome <= |Survivors(keys[..Last(sizes)], theta)|
    ensures Retried(sizes + [RetryChunk(theta, k, budget, |keys|, previous, Last(sizes), outcome)],
                    keys, theta, k, budget, previous)
  {
    var next := RetryChunk(theta, k, budget, |keys|, previous, Last(sizes), outcome);
    assert (sizes + [next])[..|sizes|] == sizes;
  }

  lemma PrefixGrows(s: seq<nat>, a: nat, b: nat)
    requires a + b <= |s|
    ensures s[..a] + s[a..][..b] == s[..a + b]
  {}

  lemma UnionSettles(v: View, other: View, data: seq<nat>)
    requires ThetaSpec.Valid(v) && ThetaSpec.Valid(other) && !other.empty && v.seedHash == other.seedHash
    requires StrictlySorted(data)
    requires Elements(data) == Passing(v.retained, other.retained, Min(v.theta, other.theta))
    ensures var w := Merge(v, other);
            && ThetaSpec.Valid(w)
            && (if |data| > v.k
                then w.theta == data[v.k] && w.retained == Elements(data[..v.k])
                else w.theta == Min(v.theta, other.theta) && w.retained == Elements(data))
  {
    var all := v.retained + other.retained;
    MergeSettles(v, other);
    assert Elements(data) == Below(all, Min(v.theta, other.theta));
    InstallSettles(v, data, all, Min(v.theta, other.theta));
    SettleSound(v, all, all, Min(v.theta, other.theta));
  }

  lemma ChunkSettles(v: View, batch: seq<nat>, data: seq<nat>)
    requires ThetaSpec.Valid(v) && batch != []
    requires StrictlySorted(data) && Elements(data) == v.retained + Below(Elements(batch), v.theta)
    ensures var w := Update(v, batch);
            && ThetaSpec.Valid(w)
            && (if |data| > v.k
                then w.theta == data[v.k] && w.retained == Elements(data[..v.k]) && StrictlySorted(data[..v.k])
                else w.theta == v.theta && w.retained == Elements(data))
  {
    var all := v.retained + Elements(batch);
    UpdateSettles(v, batch);
    assert Below(all, v.theta) == v.retained + Below(Elements(batch), v.theta);
    InstallSettles(v, data, all, v.theta);
    SettleSound(v, all, all, v.theta);
  }

  /** The device behind a sketch. Any call to it may fail; the faults are counted. */
  class Device {
    ghost var faults: nat

    method Call() returns (ok: bool)
      modifies this
      ensures faults == old(faults) + if ok then 0 else 1
    {
      ok := *;
      if !ok {
        faults := faults + 1;
      }
    }
  }

  class Sketch {
    const device: Device
    const lgK: nat
    const k: nat
    const seedHash: nat
    const initialTheta: nat
    var theta: nat
    var isEmpty: bool
    var survivorBudget: nat
    var hashes: seq<nat>
    /** The largest hash buffer requested so far. */
    ghost var peak: nat

    ghost predicate Valid()
      reads this
    {
      && InRange(View())
      && StrictlySorted(hashes) && |hashes| <= k
      && k == Pow2(lgK)
      && survivorBudget > 0
    }

    ghost function View(): View
      reads this
    {
      ThetaSpec.View(k, seedHash, initialTheta, theta, isEmpty, Elements(hashes))
    }

    lemma ValidView()
      requires Valid()
      ensures ThetaSpec.Valid(View()) && |View().retained| == |hashes|
    {
      SortedSize(hashes);
    }

    /** A new empty sketch; the caller has checked lgK and the sampling probability. */
    constructor (device: Device, lgK: nat, seedHash: nat, initialTheta: nat)
      requires MIN_LG_K <= lgK <= MAX_LG_K && 0 < initialTheta <= MAX_THETA
      ensures Valid()
      ensures View() == Fresh(Pow2(lgK), seedHash, initialTheta)
      ensures survivorBudget == Max(MIN_SURVIVOR_BUDGET, CHUNK_TARGET_MULTIPLE * Pow2(lgK))
      ensures this.device == device && this.lgK == lgK && hashes == [] && peak == 0
    {
      this.device := device;
      this.lgK := lgK;
      this.k := Pow2(lgK);
      this.seedHash := seedHash;
      this.initialTheta := initialTheta;
      theta := initialTheta;
      isEmpty := true;
      survivorBudget := Max(MIN_SURVIVOR_BUDGET, CHUNK_TARGET_MULTIPLE * Pow2(lgK));
      hashes := [];
      peak := 0;
      new;
      NominalRange(lgK);
    }

    /** check_lg_k and checked_theta, then construction with an empty buffer. Null if an
        argument is rejected or the device fails. */
    static method Make(device: Device, lgK: nat, seedHash: nat, p: real) returns (sketch: Sketch?, deviceFailed: bool)
      modifies device
      ensures device.faults == old(device.faults) + if deviceFailed then 1 else 0
      ensures sketch == null && !deviceFailed <==>
                !(MIN_LG_K <= lgK <= MAX_LG_K && 1.0 <= TWO_TO_63 as real * p && p <= 1.0)
      ensures sketch != null ==>
                && !deviceFailed && fresh(sketch) && sketch.Valid() && sketch.device == device
                && sketch.lgK == lgK && sketch.View() == Fresh(Pow2(lgK), seedHash, CheckedTheta(p))
    {
      sketch, deviceFailed := null, false;
      CheckedThetaRange(p);
      if lgK < MIN_LG_K || lgK > MAX_LG_K || CheckedTheta(p) == 0 { return; }
      var ok := device.Call();
      deviceFailed := !ok;
      if deviceFailed { return; }
      sketch := new Sketch(device, lgK, seedHash, CheckedTheta(p));
    }

    // ----- buffers -----

    method Allocate(count: nat) returns (ok: bool)
      modifies this`peak, device
      ensures device.faults == old(device.faults) + if ok then 0 else 1
      ensures peak == Max(old(peak), count)
    {
      ok := device.Call();
      peak := Max(peak, count);
    }

    method SortUnique(input: seq<nat>, bound: nat) returns (ok: bool, result: Buffer)
      requires forall h :: h in input ==> h < bound
      modifies this`peak, device
      ensures device.faults == old(device.faults) + if ok then 0 else 1
      ensures peak <= Max(old(peak), |input|)
      ensures ok ==> StrictlySorted(result.data) && Elements(result.data) == Elements(input)
      ensures ok ==> result.capacity == |input| && |result.data| <= |input|
    {
      result := Buffer([], 0);
      ok := Allocate(|input|);
      if !ok { return; }
      LowBitsSuffice(input, bound);
      var sorted := SortLow(input, BitWidth(bound));
      ok, result := UniqueSorted(sorted);
    }

    method UniqueSorted(sorted: seq<nat>) returns (ok: bool, result: Buffer)
      requires Ascending(sorted)
      modifies this`peak, device
      ensures device.faults == old(device.faults) + if ok then 0 else 1
      ensures peak == Max(old(peak), |sorted|)
      ensures ok ==> StrictlySorted(result.data) && Elements(result.data) == Elements(sorted)
      ensures ok ==> result.capacity == |sorted| && |result.data| <= |sorted|
    {
      ok := Allocate(|sorted|);
      UniqueOfAscending(sorted);
      result := Buffer(Unique(sorted), |sorted|);
    }

    /** Merge sorted, individually unique ranges. */
    method MergeUnique(first: seq<nat>, second: seq<nat>) returns (ok: bool, result: Buffer)
      requires StrictlySorted(first) && StrictlySorted(second)
      modifies this`peak, device
      ensures device.faults == old(device.faults) + if ok then 0 else 1
      ensures peak == Max(old(peak), |first| + |second|)
      ensures ok ==> StrictlySorted(result.data) && Elements(result.data) == Elements(first) + Elements(second)
      ensures ok ==> result.capacity == |first| + |second| && |result.data| <= result.capacity
    {
      result := Buffer([], 0);
      ok := Allocate(|first| + |second|);
      if !ok || |first| + |second| == 0 { return; }
      if |first| == 0 || |second| == 0 {
        ok := device.Call();
        result := Buffer(if |first| == 0 then second else first, |first| + |second|);
        return;
      }
      MergeSortedAscends(first, second);
      ok, result := UniqueSorted(MergeSorted(first, second));
    }

    /** DeviceSelect over the retained hashes or a merged buffer. */
    method SelectIf(input: seq<nat>, keep: nat -> bool) returns (ok: bool, result: Buffer)
      requires StrictlySorted(input)
      modifies this`peak, device
      ensures device.faults == old(device.faults) + if ok then 0 else 1
      ensures peak == Max(old(peak), |input|)
      ensures ok ==> StrictlySorted(result.data) && Elements(result.data) == set h | h in input && keep(h)
      ensures ok ==> result.capacity == |input| && |result.data| <= |input|
    {
      ok := Allocate(|input|);
      SelectSorted(input, keep);
      result := Buffer(Select(input, keep), |input|);
    }

    /** Replaces the retained hashes, keeping at most k; nothing changes on failure. */
    method Install(input: Buffer, newTheta: nat, empty: bool) returns (ok: bool)
      modifies this`peak, this`hashes, this`theta, this`isEmpty, device
      ensures device.faults == old(device.faults) + if ok then 0 else 1
      ensures peak <= Max(old(peak), Min(|input.data|, k))
      ensures !ok ==> hashes == old(hashes) && theta == old(theta) && isEmpty == old(isEmpty)
      ensures ok ==> hashes == (if |input.data| > k then input.data[..k] else input.data) && isEmpty == empty
      ensures ok ==> theta == if empty then initialTheta else if |input.data| > k then input.data[k] else newTheta
    {
      var retained := Min(|input.data|, k);
      var reuse := input.capacity == retained;
      if !reuse {
        ok := Allocate(retained);
        if !ok { return; }
      }
      var cut := newTheta;
      if |input.data| > k {
        cut := input.data[k];
      }
      ok := device.Call();
      if !ok { return; }
      hashes := input.data[..retained];
      theta := if empty then initialTheta else cut;
      isEmpty := empty;
    }

    // ----- update -----

    /** One kernel pass. Every survivor is counted, but only as many as the capacity are
        stored; a size beyond the capacity means the pass must be repeated with fewer keys. */
    method Screen(batch: seq<nat>) returns (ok: bool, data: seq<nat>, size: nat)
      requires Valid() && batch != []
      modifies this`peak, device
      ensures device.faults == old(device.faults) + if ok then 0 else 1
      ensures peak <= Max(old(peak), survivorBudget)
      ensures ok ==> |data| == Min(|batch|, survivorBudget) && size <= |Survivors(batch, theta)| <= |batch|
      ensures ok ==> (size == 0 <==> Below(Elements(batch), theta) == {})
      ensures ok && size <= |data| ==> Elements(data[..size]) == Below(Elements(batch), theta)
    {
      data, size := [], 0;
      var capacity := Min(|batch|, survivorBudget);
      ok := Allocate(capacity);
      if !ok { return; }
      var c := Launch(batch, theta, capacity, GridSize(|batch|));
      var out, count := RunKernel(c);
      ghost var emissions :| Emits(c, emissions, count, out);
      SurvivorsBounded(batch, theta);
      var stale: seq<nat> := *;
      data := Memory(out, stale);
      size := count;
      ok := device.Call();
      if size <= capacity {
        assert data[..size] == emissions;
      }
      if emissions != [] {
        assert emissions[0] in Elements(emissions);
      }
    }

    /** Sort the survivors, remove duplicates and merge them with what is retained. */
    method Combine(survivors: seq<nat>) returns (ok: bool, combined: Buffer)
      requires StrictlySorted(hashes)
      requires forall h :: h in survivors ==> h < theta
      modifies this`peak, device
      ensures device.faults == old(device.faults) + if ok then 0 else 1
      ensures peak <= Max(old(peak), |hashes| + |survivors|)
      ensures ok ==> StrictlySorted(combined.data) && Elements(combined.data) == Elements(hashes) + Elements(survivors)
    {
      var incoming;
      ok, incoming := SortUnique(survivors, theta);
      combined := incoming;
      if ok && hashes != [] {
        ok, combined := MergeUnique(hashes, incoming.data);
      }
    }

    /** Sort, merge and install the survivors of a pass that fitted. */
    method FoldIn(survivors: seq<nat>, ghost batch: seq<nat>) returns (ok: bool)
      requires Valid() && batch != [] && |survivors| <= survivorBudget
      requires Elements(survivors) == Below(Elements(batch), theta)
      modifies this`peak, this`hashes, this`theta, this`isEmpty, device
      ensures device.faults == old(device.faults) + if ok then 0 else 1
      ensures Valid()
      ensures peak <= Max(old(peak), k + survivorBudget)
      ensures View() == if ok then ThetaSpec.Update(old(View()), batch) else old(View())
    {
      ValidView();
      assert forall h :: h in survivors ==> h in Elements(survivors);
      var combined;
      ok, combined := Combine(survivors);
      if ok {
        ChunkSettles(View(), batch, combined.data);
        ok := Install(combined, theta, false);
      }
    }

    /** One attempt at a chunk. A pass that overflowed the budget installs nothing, and a
        pass without survivors leaves even the empty flag alone. */
    method UpdateChunk(batch: seq<nat>) returns (ok: bool, outcome: nat)
      requires Valid() && batch != []
      modifies this`peak, this`hashes, this`theta, this`isEmpty, device
      ensures device.faults == old(device.faults) + if ok then 0 else 1
      ensures Valid()
      ensures peak <= Max(old(peak), k + survivorBudget)
      ensures ok ==> outcome <= |Survivors(batch, old(theta))| <= |batch|
      ensures !ok || outcome > survivorBudget ==> View() == old(View())
      ensures ok && outcome <= survivorBudget ==>
                View().(empty := false) == ThetaSpec.Update(old(View()), batch) && (View().empty ==> old(View()).empty)
    {
      var screened, size;
      ok, screened, size := Screen(batch);
      outcome := size;
      if !ok { return; }
      if size > |screened| || size == 0 {
        if size == 0 {
          ValidView();
          NothingScreened(View(), batch);
        }
        return;
      }
      ok := FoldIn(screened[..size], batch);
    }

    /** After an overflow: screen again with fewer keys. */
    method Shrink(remaining: nat, previous: nat, chunk: nat, outcome: nat) returns (smaller: nat)
      requires Valid() && survivorBudget < outcome <= chunk <= remaining
      ensures smaller == RetryChunk(theta, k, survivorBudget, remaining, previous, chunk, outcome)
      ensures 1 <= smaller <= chunk / 2
      ensures LongEnough(survivorBudget, previous, smaller, remaining)
    {
      smaller := RetryChunk(theta, k, survivorBudget, remaining, previous, chunk, outcome);
    }

    /** The retry loop for one chunk, from the predicted size on. `attempts` are the sizes
        tried. */
    method CommitChunk(keys: seq<nat>, previous: nat, predicted: nat)
      returns (ok: bool, chunk: nat, outcome: nat, ghost attempts: seq<nat>)
      requires Valid() && 1 <= predicted <= |keys| && LongEnough(survivorBudget, previous, predicted, |keys|)
      modifies this`peak, this`hashes, this`theta, this`isEmpty, device
      ensures device.faults == old(device.faults) + if ok then 0 else 1
      ensures Valid()
      ensures peak <= Max(old(peak), k + survivorBudget)
      ensures Attempts(attempts, survivorBudget) && attempts[0] == predicted && Last(attempts) == chunk
      ensures Retried(attempts, keys, old(theta), k, survivorBudget, previous)
      ensures 1 <= chunk <= |keys| && LongEnough(survivorBudget, previous, chunk, |keys|)
      ensures !ok ==> View() == old(View())
      ensures ok ==> outcome <= survivorBudget && outcome <= chunk
      ensures ok ==> View().(empty := false) == ThetaSpec.Update(old(View()), keys[..chunk])
      ensures ok && View().empty ==> old(View()).empty
    {
      chunk := predicted;
      attempts := [chunk];
      ok, outcome := UpdateChunk(keys[..chunk]);
      while ok && outcome > survivorBudget
        invariant Valid() && peak <= Max(old(peak), k + survivorBudget)
        invariant device.faults == old(device.faults) + if ok then 0 else 1
        invariant !ok || outcome > survivorBudget ==> View() == old(View())
        invariant 1 <= chunk <= |keys| && LongEnough(survivorBudget, previous, chunk, |keys|)
        invariant ok ==> outcome <= |Survivors(keys[..chunk], old(theta))| <= chunk
        invariant Attempts(attempts, survivorBudget) && attempts[0] == predicted && Last(attempts) == chunk
        invariant Retried(attempts, keys, old(theta), k, survivorBudget, previous)
        invariant ok && outcome <= survivorBudget ==>
                    && View().(empty := false) == ThetaSpec.Update(old(View()), keys[..chunk])
                    && (View().empty ==> old(View()).empty)
        decreases chunk
      {
        var smaller := Shrink(|keys|, previous, chunk, outcome);
        AttemptsExtend(attempts, survivorBudget, smaller);
        RetriedExtend(attempts, keys, theta, k, survivorBudget, previous, outcome);
        chunk, attempts := smaller, attempts + [smaller];
        ok, outcome := UpdateChunk(keys[..chunk]);
      }
    }

    method Predict(remaining: nat, previous: nat, duplicateFactor: real) returns (chunk: nat)
      requires Valid() && remaining > 0 && duplicateFactor >= 0.0
      ensures chunk == NextChunk(theta, k, survivorBudget, remaining, previous, duplicateFactor)
      ensures 1 <= chunk <= remaining && LongEnough(survivorBudget, previous, chunk, remaining)
    {
      if survivorBudget >= MIN_SURVIVOR_BUDGET && (previous == 0 || previous >= MIN_CHUNK_KEYS) {
        NextChunkLong(theta, k, survivorBudget, remaining, previous, duplicateFactor);
      }
      chunk := NextChunk(theta, k, survivorBudget, remaining, previous, duplicateFactor);
    }

    method Measure(rateTheta: nat, chunk: nat, outcome: nat) returns (duplicateFactor: real)
      requires 0 < rateTheta <= MAX_THETA && chunk > 0
      ensures duplicateFactor == DuplicateFactor(rateTheta, chunk, outcome) >= 0.0
    {
      duplicateFactor := DuplicateFactor(rateTheta, chunk, outcome);
    }

    /** The first `offset` keys have been committed, in `chunks`, since the state was v. */
    ghost predicate Committed(v: View, keys: seq<nat>, offset: nat, previous: nat,
                              chunks: seq<nat>, tries: seq<seq<nat>>)
      reads this
    {
      && Valid()
      && offset <= |keys| && View() == ThetaSpec.Update(v, keys[..offset])
      && Ledger(survivorBudget, |keys|, offset, previous, chunks, tries)
    }

    /** Screen with retries from the predicted size on, and commit. */
    method CommitRound(keys: seq<nat>, offset: nat, previous: nat, predicted: nat,
                       ghost v: View, ghost chunks: seq<nat>, ghost tries: seq<seq<nat>>)
      returns (ok: bool, chunk: nat, outcome: nat, ghost attempts: seq<nat>)
      requires Committed(v, keys, offset, previous, chunks, tries) && 1 <= predicted <= |keys| - offset
      requires LongEnough(survivorBudget, previous, predicted, |keys| - offset)
      modifies this`peak, this`hashes, this`theta, this`isEmpty, device
      ensures device.faults == old(device.faults) + if ok then 0 else 1
      ensures peak <= Max(old(peak), k + survivorBudget)
      ensures Attempts(attempts, survivorBudget) && attempts[0] == predicted
      ensures ok ==>
                && chunk > 0 && outcome <= survivorBudget
                && Committed(v, keys, offset + chunk, chunk, chunks + [chunk], tries + [attempts])
      ensures !ok ==> Committed(v, keys, offset, previous, chunks, tries)
    {
      ghost var current := View();
      ok, chunk, outcome, attempts := CommitChunk(keys[offset..], previous, predicted);
      if ok {
        // the empty flag falls only after a chunk has succeeded
        isEmpty := false;
        CommitExtends(v, current, keys, offset, chunk);
        LedgerExtends(survivorBudget, |keys|, offset, previous, chunks, tries, attempts);
      }
    }

    /** One round of the update loop: predict, commit, measure. */
    method Advance(keys: seq<nat>, offset: nat, previous: nat, duplicateFactor: real,
                   ghost v: View, ghost chunks: seq<nat>, ghost tries: seq<seq<nat>>)
      returns (ok: bool, chunk: nat, measured: real, ghost attempts: seq<nat>, ghost outcome: nat)
      requires Committed(v, keys, offset, previous, chunks, tries) && offset < |keys| && duplicateFactor >= 0.0
      modifies this`peak, this`hashes, this`theta, this`isEmpty, device
      ensures device.faults == old(device.faults) + if ok then 0 else 1
      ensures peak <= Max(old(peak), k + survivorBudget)
      ensures Attempts(attempts, survivorBudget)
      ensures attempts[0] == NextChunk(old(theta), k, survivorBudget, |keys| - offset, previous, duplicateFactor)
      ensures ok ==>
                && chunk > 0 && outcome <= survivorBudget
                && Committed(v, keys, offset + chunk, chunk, chunks + [chunk], tries + [attempts])
      ensures ok ==> measured == DuplicateFactor(old(theta), chunk, outcome)
      ensures measured >= 0.0
      ensures !ok ==> Committed(v, keys, offset, previous, chunks, tries)
    {
      var before := theta;
      var predicted := Predict(|keys| - offset, previous, duplicateFactor);
      var survivors;
      ok, chunk, survivors, attempts := CommitRound(keys, offset, previous, predicted, v, chunks, tries);
      measured, outcome := duplicateFactor, survivors;
      if ok {
        measured := Measure(before, chunk, survivors);
      }
    }

    /** Update with the keys' hashes. Chunks commit one by one: on failure the sketch is what
        updating with the committed chunks alone makes it. `chunks` are their sizes, and
        `tries` the sizes tried for each of them, the committed one last. */
    method Update(keys: seq<nat>) returns (status: Status, ghost chunks: seq<nat>, ghost tries: seq<seq<nat>>)
      requires Valid()
      modifies this`peak, this`hashes, this`theta, this`isEmpty, device
      ensures device.faults == old(device.faults) + if status == DeviceFailure then 1 else 0
      ensures Valid()
      ensures Total(chunks) <= |keys| && View() == ThetaSpec.Update(old(View()), keys[..Total(chunks)])
      ensures status == Completed ==> Total(chunks) == |keys|
      ensures status != SeedMismatch
      ensures peak <= Max(old(peak), k + survivorBudget)
      ensures ChunksLong(survivorBudget, chunks, Total(chunks) == |keys|)
      ensures Tried(chunks, tries, survivorBudget)
    {
      var offset, previous := 0, 0;
      var duplicateFactor := 1.0;
      var ok := true;
      chunks, tries := [], [];
      ghost var v := View();
      assert keys[..0] == [];
      assert Committed(v, keys, 0, 0, chunks, tries);
      while ok && offset < |keys|
        invariant Committed(v, keys, offset, previous, chunks, tries) && duplicateFactor >= 0.0
        invariant device.faults == old(device.faults) + if ok then 0 else 1
        invariant peak <= Max(old(peak), k + survivorBudget)
        decreases |keys| - offset, ok
      {
        ghost var attempts, outcome;
        var chunk, measured;
        ok, chunk, measured, attempts, outcome := Advance(keys, offset, previous, duplicateFactor, v, chunks, tries);
        if ok {
          offset, previous, duplicateFactor := offset + chunk, chunk, measured;
          chunks, tries := chunks + [chunk], tries + [attempts];
        }
      }
      status := if ok then Completed else DeviceFailure;
    }

    /** effective_theta */
    function Threshold(): (t: nat)
      reads this
      ensures t == EffectiveTheta(View())
    {
      if isEmpty then MAX_THETA else theta
    }

    // ----- images -----

    /** The image of the state, unless copying the hashes to the host fails. */
    method Serialize() returns (ok: bool, bytes: seq<byte>)
      requires Valid()
      modifies device
      ensures device.faults == old(device.faults) + if ok then 0 else 1
      ensures Valid() && View() == old(View())
      ensures ok ==> bytes == ThetaReload.Serialize(View())
    {
      bytes := [];
      ok := device.Call();
      if !ok { return; }
      SortedUnique(hashes, Enumerate(Elements(hashes)));
      bytes := SerializeCompact(isEmpty, seedHash, Threshold(), hashes);
    }

    /** Parse, construct, load. Null if the image or lgK is rejected or the device fails. */
    static method Deserialize(device: Device, bytes: seq<byte>, lgK: nat, seedHash: nat)
      returns (sketch: Sketch?, deviceFailed: bool)
      modifies device
      ensures device.faults == old(device.faults) + if deviceFailed then 1 else 0
      ensures sketch != null ==>
                && !deviceFailed && fresh(sketch) && sketch.Valid() && MIN_LG_K <= lgK <= MAX_LG_K
                && ThetaReload.Deserialize(bytes, Pow2(lgK), seedHash) == ThetaReload.Loaded(sketch.View())
      ensures sketch == null && !deviceFailed ==>
                || lgK < MIN_LG_K || lgK > MAX_LG_K
                || ThetaReload.Deserialize(bytes, Pow2(lgK), seedHash) == ThetaReload.Refused
    {
      sketch, deviceFailed := null, false;
      var parsed := ParseCompact(bytes, seedHash);
      if parsed.Rejected? { return; }
      var loading;
      loading, deviceFailed := Make(device, lgK, seedHash, 1.0);
      if loading == null { return; }
      AcceptedFields(bytes, seedHash);
      var loaded;
      loaded, deviceFailed := loading.LoadCompact(parsed.image);
      if loaded { sketch := loading; }
    }

    /** load_compact, into a sketch that does not sample. Not loaded if the device fails or
        there are more entries than the sketch can hold. */
    method LoadCompact(image: Compact) returns (loaded: bool, deviceFailed: bool)
      requires Valid() && initialTheta == MAX_THETA && Sound(image)
      modifies this`peak, this`hashes, this`theta, this`isEmpty, device
      ensures device.faults == old(device.faults) + if deviceFailed then 1 else 0
      ensures Valid()
      ensures !loaded && !deviceFailed <==> |image.entries| > k
      ensures loaded ==> !deviceFailed && ThetaReload.Install(image, k, seedHash) == ThetaReload.Loaded(View())
      ensures !loaded ==> View() == old(View())
    {
      loaded, deviceFailed := false, false;
      if |image.entries| > k { return; }
      InstalledValid(image, k, seedHash);
      loaded := Allocate(|image.entries|);
      if loaded {
        loaded := Install(Buffer(image.entries, |image.entries|), image.theta, image.empty);
      }
      deviceFailed := !loaded;
    }

    // ----- set operations -----

    /** Union. All or nothing. */
    method Merge(other: Sketch) returns (status: Status)
      requires Valid() && other.Valid()
      modifies this`peak, this`hashes, this`theta, this`isEmpty, device
      ensures device.faults == old(device.faults) + if status == DeviceFailure then 1 else 0
      ensures Valid()
      ensures status == SeedMismatch <==> MergeRejects(old(View()), old(other.View()))
      ensures View() == if status == DeviceFailure then old(View()) else ThetaSpec.Merge(old(View()), old(other.View()))
    {
      if other.isEmpty { return Completed; }
      if seedHash != other.seedHash { return SeedMismatch; }
      var cut := Min(theta, other.Threshold());
      ValidView();
      other.ValidView();
      var ok, screened;
      ok, screened := UnionBelow(hashes, other.hashes, cut);
      if !ok { return DeviceFailure; }
      UnionSettles(View(), other.View(), screened.data);
      ok := Install(screened, cut, false);
      status := if ok then Completed else DeviceFailure;
    }

    /** merge_unique, then select with screen_hash. */
    method UnionBelow(first: seq<nat>, second: seq<nat>, cut: nat) returns (ok: bool, screened: Buffer)
      requires StrictlySorted(first) && StrictlySorted(second)
      modifies this`peak, device
      ensures device.faults == old(device.faults) + if ok then 0 else 1
      ensures ok ==> StrictlySorted(screened.data)
      ensures ok ==> Elements(screened.data) == Passing(Elements(first), Elements(second), cut)
    {
      ok, screened := MergeUnique(first, second);
      if !ok { return; }
      assert forall h :: h in screened.data <==> h in Elements(screened.data);
      ok, screened := SelectIf(screened.data, ScreenFilter(cut));
    }

    method Intersect(other: Sketch) returns (status: Status)
      requires Valid() && other.Valid()
      modifies this`peak, this`hashes, this`theta, this`isEmpty, device
      ensures device.faults == old(device.faults) + if status == DeviceFailure then 1 else 0
      ensures Valid()
      ensures status == SeedMismatch <==> IntersectRejects(old(View()), old(other.View()))
      ensures View() == if status == DeviceFailure then old(View())
                        else ThetaSpec.Intersect(old(View()), old(other.View()))
    {
      if isEmpty { return Completed; }
      if other.isEmpty {
        status := Reset();
        return;
      }
      status := RetainMatching(other, true);
    }

    /** Difference. A sketch that retains nothing still goes through the filter, which may
        find that it is exactly empty. */
    method ANotB(other: Sketch) returns (status: Status)
      requires Valid() && other.Valid()
      modifies this`peak, this`hashes, this`theta, this`isEmpty, device
      ensures device.faults == old(device.faults) + if status == DeviceFailure then 1 else 0
      ensures Valid()
      ensures status == SeedMismatch <==> ANotBRejects(old(View()), old(other.View()))
      ensures View() == if status == DeviceFailure then old(View()) else ThetaSpec.ANotB(old(View()), old(other.View()))
    {
      assert hashes != [] ==> hashes[0] in View().retained;
      if isEmpty || (hashes != [] && other.isEmpty) { return Completed; }
      status := RetainMatching(other, false);
    }

    method RetainMatching(other: Sketch, keepMatches: bool) returns (status: Status)
      requires Valid() && other.Valid() && !isEmpty
      modifies this`peak, this`hashes, this`theta, this`isEmpty, device
      ensures device.faults == old(device.faults) + if status == DeviceFailure then 1 else 0
      ensures Valid()
      ensures status == SeedMismatch <==> seedHash != other.seedHash
      ensures View() == if status == Completed
                        then ThetaSpec.RetainMatching(old(View()), old(other.View()), keepMatches)
                        else old(View())
    {
      if seedHash != other.seedHash { return SeedMismatch; }
      ghost var v, w := View(), other.View();
      ValidView();
      other.ValidView();
      var otherHashes := other.hashes;
      var cut := Min(Threshold(), other.Threshold());
      var ok, result;
      ok, result := SelectIf(hashes, MembershipFilter(otherHashes, cut, keepMatches));
      if !ok { return DeviceFailure; }
      RetainedSelection(v, w, hashes, otherHashes, cut, keepMatches, result.data);
      var empty := |result.data| == 0 && cut == MAX_THETA;
      ok := Install(result, cut, empty);
      status := if ok then Completed else DeviceFailure;
    }

    method Reset() returns (status: Status)
      requires Valid()
      modifies this`peak, this`hashes, this`theta, this`isEmpty, device
      ensures device.faults == old(device.faults) + if status == DeviceFailure then 1 else 0
      ensures Valid()
      ensures status != SeedMismatch
      ensures View() == if status == Completed then ThetaSpec.Reset(old(View())) else old(View())
    {
      var ok := Allocate(0);
      if !ok { return DeviceFailure; }
      ok := Install(Buffer([], 0), MAX_THETA, true);
      status := if ok then Completed else DeviceFailure;
    }
  }

  /** Keeps a hash that passes the screen. */
  function ScreenFilter(theta: nat): nat -> bool {
    (h: nat) => h != 0 && h < theta
  }

  /** Keeps a hash that passes the screen and whose presence among `other` is as asked. */
  function MembershipFilter(other: seq<nat>, theta: nat, keepMatches: bool): nat -> bool
    requires StrictlySorted(other)
  {
    (h: nat) => 0 < h < theta && BinarySearch(other, h) == keepMatches
  }

  lemma RetainedSelection(v: View, w: View, hashes: seq<nat>, other: seq<nat>, cut: nat,
                          keepMatches: bool, data: seq<nat>)
    requires ThetaSpec.Valid(v) && ThetaSpec.Valid(w) && !v.empty
    requires StrictlySorted(hashes) && Elements(hashes) == v.retained
    requires StrictlySorted(other) && Elements(other) == w.retained
    requires cut == Min(EffectiveTheta(v), EffectiveTheta(w))
    requires StrictlySorted(data)
    requires Elements(data) == set h | h in hashes && MembershipFilter(other, cut, keepMatches)(h)
    ensures var u := ThetaSpec.RetainMatching(v, w, keepMatches);
            && Elements(data) == u.retained
            && u.empty == (|data| == 0 && cut == MAX_THETA)
            && |data| <= v.k && ThetaSpec.Valid(u)
  {
    var u := ThetaSpec.RetainMatching(v, w, keepMatches);
    assert Elements(data) == u.retained;
    SortedSize(data);
    SubsetSize(u.retained, v.retained);
    assert u.retained == Below(u.retained, cut);
  }

  lemma NominalRange(lgK: nat)
    requires lgK <= MAX_LG_K
    ensures 0 < Pow2(lgK) <= MAX_NOMINAL
  {
    Pow2Monotone(lgK, MAX_LG_K);
    PowersOfTwo();
  }

  /** A batch without survivors changes nothing but the empty flag. */
  lemma NothingScreened(v: View, batch: seq<nat>)
    requires ThetaSpec.Valid(v) && batch != [] && Below(Elements(batch), v.theta) == {}
    ensures Update(v, batch) == v.(empty := false)
  {
    var all := v.retained + Elements(batch);
    forall h ensures h in Below(all, v.theta) <==> h in v.retained {
      assert h in v.retained <==> h in Below(v.retained, v.theta);
      assert h !in Below(Elements(batch), v.theta);
    }
    assert Below(all, v.theta) == v.retained;
    UpdateSettles(v, batch);
    CutIs(v.retained + Elements(batch), v.k, v.theta, v.theta);
  }
}
