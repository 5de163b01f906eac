/** What a Theta sketch means: its abstract state, its operations on that state, and the
    laws they obey. The imperative sketch in ThetaSketch.dfy is proved to compute
    exactly these functions. */
module ThetaSpec {
  import opened HashSets

  const MAX_THETA: nat := 0x7fff_ffff_ffff_ffff
  const MAX_NOMINAL: nat := 0x400_0000 // 2^26

  /** `retained` is the set held in the ordered device buffer. */
  datatype View = View(k: nat, seedHash: nat, initialTheta: nat, theta: nat, empty: bool, retained: set<nat>)

  ghost predicate Configured(k: nat, initialTheta: nat) {
    0 < k <= MAX_NOMINAL && 0 < initialTheta <= MAX_THETA
  }

  ghost predicate InRange(v: View) {
    && Configured(v.k, v.initialTheta)
    && 0 < v.theta <= v.initialTheta
    && v.retained == Below(v.retained, v.theta)
    && (v.empty ==> v.retained == {} && v.theta == v.initialTheta)
  }

  ghost predicate Valid(v: View) {
    InRange(v) && |v.retained| <= v.k
  }

  function Min(a: nat, b: nat): nat {
    if a < b then a else b
  }

  function Max(a: nat, b: nat): nat {
    if a < b then b else a
  }

  function EffectiveTheta(v: View): nat {
    if v.empty then MAX_THETA else v.theta
  }

  function Fresh(k: nat, seedHash: nat, initialTheta: nat): View {
    View(k, seedHash, initialTheta, initialTheta, true, {})
  }

  /** The one-line specification of retention: of the hashes `s` that pass `theta`, keep
      the k smallest and, if there are more, let theta drop to the next one. */
  ghost function Settle(v: View, s: set<nat>, theta: nat): View {
    var c := Cut(s, v.k, theta);
    v.(theta := c, retained := Below(s, c), empty := false)
  }

  ghost function Update(v: View, keys: seq<nat>): View {
    if keys == [] then v else Settle(v, Passing(v.retained, Elements(keys), v.theta), v.theta)
  }

  // ----- set operations; a rejected operation throws and changes nothing -----

  predicate MergeRejects(v: View, other: View) {
    !other.empty && v.seedHash != other.seedHash
  }

  ghost function Merge(v: View, other: View): View {
    if other.empty || MergeRejects(v, other) then v
    else
      var theta := Min(v.theta, EffectiveTheta(other));
      Settle(v, Passing(v.retained, other.retained, theta), theta)
  }

  predicate IntersectRejects(v: View, other: View) {
    !v.empty && !other.empty && v.seedHash != other.seedHash
  }

  function Intersect(v: View, other: View): View {
    if v.empty || IntersectRejects(v, other) then v
    else if other.empty then Reset(v)
    else RetainMatching(v, other, true)
  }

  predicate ANotBKeeps(v: View, other: View) {
    v.empty || (v.retained != {} && other.empty)
  }

  predicate ANotBRejects(v: View, other: View) {
    !ANotBKeeps(v, other) && v.seedHash != other.seedHash
  }

  function ANotB(v: View, other: View): View {
    if ANotBKeeps(v, other) || ANotBRejects(v, other) then v
    else RetainMatching(v, other, false)
  }

  function RetainMatching(v: View, other: View, keepMatches: bool): View {
    var theta := Min(EffectiveTheta(v), EffectiveTheta(other));
    var kept := set h | h in Below(v.retained, theta) && (h in other.retained) == keepMatches;
    var empty := kept == {} && theta == MAX_THETA;
    v.(retained := kept, theta := if empty then v.initialTheta else theta, empty := empty)
  }

  function Reset(v: View): View {
    v.(retained := {}, theta := v.initialTheta, empty := true)
  }

  /** The sketch that loading this one's image into nominal size k gives: the image carries
      the flag, the effective theta and the entries, but neither k nor the sampling. */
  function Restore(v: View, k: nat): View {
    v.(k := k, initialTheta := MAX_THETA, theta := EffectiveTheta(v))
  }

  // ----- every run of operations represents the set it should -----

  /** A history of one sketch; the operands of set operations have histories too. */
  datatype Run =
    | New(k: nat, seedHash: nat, initialTheta: nat)
    | Updated(run: Run, keys: seq<nat>)
    | Merged(run: Run, other: Run)
    | Intersected(run: Run, other: Run)
    | Subtracted(run: Run, other: Run)
    | Cleared(run: Run)
    | Restored(run: Run, k: nat)

  ghost predicate Constructible(r: Run) {
    match r
    case New(k, _, initialTheta) => Configured(k, initialTheta)
    case Updated(run, _) => Constructible(run)
    case Merged(run, other) => Constructible(run) && Constructible(other)
    case Intersected(run, other) => Constructible(run) && Constructible(other)
    case Subtracted(run, other) => Constructible(run) && Constructible(other)
    case Cleared(run) => Constructible(run)
    case Restored(run, k) => Constructible(run) && 0 < k <= MAX_NOMINAL
  }

  ghost function Outcome(r: Run): View {
    match r
    case New(k, seedHash, initialTheta) => Fresh(k, seedHash, initialTheta)
    case Updated(run, keys) => Update(Outcome(run), keys)
    case Merged(run, other) => Merge(Outcome(run), Outcome(other))
    case Intersected(run, other) => Intersect(Outcome(run), Outcome(other))
    case Subtracted(run, other) => ANotB(Outcome(run), Outcome(other))
    case Cleared(run) => Reset(Outcome(run))
    case Restored(run, k) =>
      // an image with more entries than k is refused, and the sketch lives on
      if |Outcome(run).retained| > k then Outcome(run) else Restore(Outcome(run), k)
  }

  /** The exact set a run stands for, with nothing sampled or forgotten. The universe is
      the open interval (0, MAX_THETA): a key hashing to 0 or to MAX_THETA is invisible. */
  ghost function Truth(r: Run): set<nat> {
    match r
    case New(_, _, _) => {}
    case Updated(run, keys) => Truth(run) + Below(Elements(keys), MAX_THETA)
    case Merged(run, other) =>
      if MergeRejects(Outcome(run), Outcome(other)) then Truth(run) else Truth(run) + Truth(other)
    case Intersected(run, other) =>
      if IntersectRejects(Outcome(run), Outcome(other)) then Truth(run) else Truth(run) * Truth(other)
    case Subtracted(run, other) =>
      if ANotBRejects(Outcome(run), Outcome(other)) then Truth(run) else Truth(run) - Truth(other)
    case Cleared(run) => {}
    case Restored(run, _) => Truth(run)
  }

  ghost predicate Represents(v: View, s: set<nat>) {
    && s == Below(s, MAX_THETA)
    && v.retained == Below(s, v.theta)
    && (v.empty ==> s == {})
  }

  /** Over every run the retained hashes are exactly the hashes of the true set below
      theta, and the empty flag is raised only when the true set is empty. */
  lemma {:induction false} RunSound(r: Run)
    requires Constructible(r)
    ensures Valid(Outcome(r))
    ensures Represents(Outcome(r), Truth(r))
  {
    match r
    case New(_, _, _) =>
    case Updated(run, keys) =>
      RunSound(run);
      UpdateSound(Outcome(run), Truth(run), keys);
    case Merged(run, other) =>
      RunSound(run);
      RunSound(other);
      MergeSound(Outcome(run), Truth(run), Outcome(other), Truth(other));
    case Intersected(run, other) =>
      RunSound(run);
      RunSound(other);
      IntersectSound(Outcome(run), Truth(run), Outcome(other), Truth(other));
    case Subtracted(run, other) =>
      RunSound(run);
      RunSound(other);
      ANotBSound(Outcome(run), Truth(run), Outcome(other), Truth(other));
    case Cleared(run) =>
      RunSound(run);
    case Restored(run, _) =>
      RunSound(run);
  }

  predicate EstimationMode(v: View) {
    !v.empty && v.theta < MAX_THETA
  }

  /** What v says about h is exact: if h is not retained, it was not seen. */
  predicate Covers(v: View, h: nat) {
    h < EffectiveTheta(v)
  }

  /** A sketch is in estimation mode exactly if it leaves some hash open; an empty sketch
      leaves none, however hard it was sampled. */
  lemma EstimationModeExactly(v: View)
    requires Valid(v)
    ensures EstimationMode(v) <==> exists h :: 0 < h < MAX_THETA && !Covers(v, h)
    ensures v.empty ==> !EstimationMode(v)
  {
    assert v.theta < MAX_THETA && !v.empty ==> !Covers(v, v.theta);
  }

  /** Outside estimation mode nothing has been sampled away or forgotten: the retained
      hashes are the true set and their number is its exact size. */
  lemma ExactOutsideEstimationMode(r: Run)
    requires Constructible(r) && !EstimationMode(Outcome(r))
    ensures Outcome(r).retained == Truth(r)
  {
    RunSound(r);
  }

  lemma UpdateSound(v: View, s: set<nat>, keys: seq<nat>)
    requires Valid(v) && Represents(v, s)
    ensures Valid(Update(v, keys))
    ensures Represents(Update(v, keys), s + Below(Elements(keys), MAX_THETA))
  {
    if keys == [] {
      assert s + Below(Elements(keys), MAX_THETA) == s;
    } else {
      SettleSound(v, Passing(v.retained, Elements(keys), v.theta), s + Below(Elements(keys), MAX_THETA), v.theta);
    }
  }

  lemma SettleSound(v: View, kept: set<nat>, s: set<nat>, theta: nat)
    requires Configured(v.k, v.initialTheta) && 0 < theta <= v.initialTheta
    requires Below(kept, theta) == Below(s, theta)
    ensures var w := Settle(v, kept, theta);
            Valid(w) && w.theta <= theta && w.retained == Below(s, w.theta)
  {
    var c := Cut(kept, v.k, theta);
    CutMeets(kept, v.k, theta);
    assert Below(kept, c) == Below(Below(kept, theta), c);
    assert Below(s, c) == Below(Below(s, theta), c);
  }

  lemma MergeSound(v: View, s: set<nat>, other: View, t: set<nat>)
    requires Valid(v) && Represents(v, s) && Valid(other) && Represents(other, t)
    ensures Valid(Merge(v, other))
    ensures Represents(Merge(v, other), if MergeRejects(v, other) then s else s + t)
  {
    if other.empty {
      assert s + t == s;
    } else if !MergeRejects(v, other) {
      var theta := Min(v.theta, other.theta);
      SettleSound(v, Passing(v.retained, other.retained, theta), s + t, theta);
    }
  }

  lemma IntersectSound(v: View, s: set<nat>, other: View, t: set<nat>)
    requires Valid(v) && Represents(v, s) && Valid(other) && Represents(other, t)
    ensures Valid(Intersect(v, other))
    ensures Represents(Intersect(v, other), if IntersectRejects(v, other) then s else s * t)
  {
    if !v.empty && !other.empty && !IntersectRejects(v, other) {
      RetainSound(v, s, other, t, true);
    }
  }

  lemma ANotBSound(v: View, s: set<nat>, other: View, t: set<nat>)
    requires Valid(v) && Represents(v, s) && Valid(other) && Represents(other, t)
    ensures Valid(ANotB(v, other))
    ensures Represents(ANotB(v, other), if ANotBRejects(v, other) then s else s - t)
  {
    if !ANotBKeeps(v, other) && !ANotBRejects(v, other) {
      RetainSound(v, s, other, t, false);
    }
  }

  lemma RetainSound(v: View, s: set<nat>, other: View, t: set<nat>, keepMatches: bool)
    requires Valid(v) && Represents(v, s) && Valid(other) && Represents(other, t)
    requires !v.empty
    ensures var w := RetainMatching(v, other, keepMatches);
            Valid(w) && Represents(w, if keepMatches then s * t else s - t)
  {
    var u := if keepMatches then s * t else s - t;
    var theta := Min(v.theta, EffectiveTheta(other));
    var w := RetainMatching(v, other, keepMatches);
    forall h ensures h in w.retained <==> h in Below(u, theta) {
      if h in Below(s, theta) {
        assert h in Below(v.retained, theta);
        assert h in t <==> h in other.retained;
      }
    }
    assert w.retained == Below(u, theta);
    assert w.retained == Below(w.retained, theta);
    SubsetSize(w.retained, v.retained);
  }

  // ----- what the set operations leave behind -----

  /** A reset gives back the sketch as it was constructed. */
  lemma ResetIsFresh(v: View)
    ensures Reset(v) == Fresh(v.k, v.seedHash, v.initialTheta)
  {}

  /** An empty operand adds nothing, however hard it was sampled; otherwise the seeds must
      agree and the smallest hashes of both stay. */
  lemma MergeExactly(v: View, other: View)
    ensures MergeRejects(v, other) <==> !other.empty && v.seedHash != other.seedHash
    ensures other.empty || v.seedHash != other.seedHash ==> Merge(v, other) == v
    ensures !other.empty && v.seedHash == other.seedHash ==>
              Merge(v, other) == Settle(v, v.retained + other.retained, Min(v.theta, other.theta))
  {
    if !other.empty && v.seedHash == other.seedHash {
      MergeSettles(v, other);
    }
  }

  /** r is what v becomes when it keeps the hashes whose presence in w is as asked: r covers
      a hash exactly if v and w both do, and it is empty, and then as it was constructed,
      exactly if both cover every hash and none is kept. */
  ghost predicate Filtered(r: View, v: View, w: View, keepMatches: bool) {
    && r.k == v.k && r.seedHash == v.seedHash && r.initialTheta == v.initialTheta
    && (forall h :: h in r.retained <==>
          h in v.retained && Covers(w, h) && (h in w.retained <==> keepMatches))
    && (forall h :: Covers(r, h) <==> Covers(v, h) && Covers(w, h))
    && (r.empty <==> EffectiveTheta(v) == EffectiveTheta(w) == MAX_THETA && r.retained == {})
    && (r.empty ==> r == Fresh(v.k, v.seedHash, v.initialTheta))
  }

  lemma RetainMatchingFilters(v: View, w: View, keepMatches: bool)
    requires Valid(v) && Valid(w) && !v.empty
    ensures Filtered(RetainMatching(v, w, keepMatches), v, w, keepMatches)
  {
    var r := RetainMatching(v, w, keepMatches);
    forall h ensures h in r.retained <==> h in v.retained && Covers(w, h) && (h in w.retained <==> keepMatches) {
      assert h in v.retained ==> h in Below(v.retained, v.theta);
    }
  }

  /** Intersection in all its cases. */
  lemma IntersectExactly(v: View, w: View)
    requires Valid(v) && Valid(w)
    ensures IntersectRejects(v, w) <==> !v.empty && !w.empty && v.seedHash != w.seedHash
    ensures var r := Intersect(v, w);
            && (v.empty || IntersectRejects(v, w) ==> r == v)
            && (!v.empty && w.empty ==> r == Fresh(v.k, v.seedHash, v.initialTheta))
            && (!v.empty && !w.empty && v.seedHash == w.seedHash ==> Filtered(r, v, w, true))
  {
    if !v.empty && !w.empty {
      RetainMatchingFilters(v, w, true);
    }
  }

  /** Difference in all its cases. A sketch that retains nothing is filtered, and its seed
      checked, even if the operand is empty. */
  lemma ANotBExactly(v: View, w: View)
    requires Valid(v) && Valid(w)
    ensures ANotBRejects(v, w) <==> !v.empty && (v.retained == {} || !w.empty) && v.seedHash != w.seedHash
    ensures var r := ANotB(v, w);
            && (v.empty || (v.retained != {} && w.empty) || v.seedHash != w.seedHash ==> r == v)
            && (!v.empty && (v.retained == {} || !w.empty) && v.seedHash == w.seedHash ==> Filtered(r, v, w, false))
  {
    if !v.empty {
      RetainMatchingFilters(v, w, false);
    }
  }

  // ----- batching -----

  /** An update settles on the union of what is retained and what is new. */
  lemma UpdateSettles(v: View, keys: seq<nat>)
    requires keys != []
    ensures Update(v, keys) == Settle(v, v.retained + Elements(keys), v.theta)
  {
    PassingIsUnion(v.retained, Elements(keys), v.k, v.theta);
  }

  /** Splitting a batch between two calls does not change the result. */
  lemma UpdateSplits(v: View, xs: seq<nat>, ys: seq<nat>)
    ensures Update(Update(v, xs), ys) == Update(v, xs + ys)
  {
    if xs == [] {
      assert xs + ys == ys;
    } else if ys == [] {
      assert xs + ys == xs;
    } else {
      UpdateSettles(v, xs);
      UpdateSettles(v, xs + ys);
      UpdateSettles(Update(v, xs), ys);
      CutAbsorbs(v.retained + Elements(xs), Elements(ys), v.k, v.theta);
      assert Elements(xs + ys) == Elements(xs) + Elements(ys);
      assert v.retained + Elements(xs) + Elements(ys) == v.retained + Elements(xs + ys);
    }
  }

  ghost function UpdateAll(v: View, batches: seq<seq<nat>>): View
    decreases |batches|
  {
    if batches == [] then v else UpdateAll(Update(v, batches[0]), batches[1..])
  }

  ghost function Flatten(batches: seq<seq<nat>>): seq<nat> {
    if batches == [] then [] else batches[0] + Flatten(batches[1..])
  }

  lemma {:induction false} UpdateAllIsOneUpdate(v: View, batches: seq<seq<nat>>)
    ensures UpdateAll(v, batches) == Update(v, Flatten(batches))
    decreases |batches|
  {
    if batches != [] {
      var first := batches[0];
      UpdateAllIsOneUpdate(Update(v, first), batches[1..]);
      UpdateSplits(v, first, Flatten(batches[1..]));
    }
  }

  /** Only the set of hashes matters: not how keys are grouped into calls, not their
      order, not their multiplicity. */
  lemma BatchingIsIrrelevant(v: View, left: seq<seq<nat>>, right: seq<seq<nat>>)
    requires Elements(Flatten(left)) == Elements(Flatten(right))
    ensures UpdateAll(v, left) == UpdateAll(v, right)
  {
    UpdateAllIsOneUpdate(v, left);
    UpdateAllIsOneUpdate(v, right);
    SameElements(v, Flatten(left), Flatten(right));
  }

  lemma SameElements(v: View, xs: seq<nat>, ys: seq<nat>)
    requires Elements(xs) == Elements(ys)
    ensures Update(v, xs) == Update(v, ys)
  {
    if xs != [] {
      assert xs[0] in Elements(ys);
    }
    if ys != [] {
      assert ys[0] in Elements(xs);
    }
  }

  // ----- merging is union -----

  /** A sketch that has only ever been updated. */
  ghost function SketchOf(k: nat, seedHash: nat, initialTheta: nat, keys: seq<nat>): View {
    Update(Fresh(k, seedHash, initialTheta), keys)
  }

  lemma SketchSettles(k: nat, seedHash: nat, initialTheta: nat, keys: seq<nat>)
    requires keys != []
    ensures SketchOf(k, seedHash, initialTheta, keys)
            == Settle(Fresh(k, seedHash, initialTheta), Elements(keys), initialTheta)
  {
    UpdateSettles(Fresh(k, seedHash, initialTheta), keys);
    assert {} + Elements(keys) == Elements(keys);
  }

  lemma MergeSettles(v: View, other: View)
    requires !other.empty && v.seedHash == other.seedHash
    ensures Merge(v, other) == Settle(v, v.retained + other.retained, Min(v.theta, other.theta))
  {
    PassingIsUnion(v.retained, other.retained, v.k, Min(v.theta, other.theta));
  }

  /** An updated sketch either still has its starting theta and holds every passing hash, or
      is full and its theta is itself one of the hashes it has seen. */
  lemma CanonicalForm(k: nat, seedHash: nat, initialTheta: nat, keys: seq<nat>)
    requires Configured(k, initialTheta)
    ensures var v := SketchOf(k, seedHash, initialTheta, keys);
            var seen := Elements(keys);
            && Valid(v)
            && v.retained == Below(seen, v.theta)
            && (v.empty <==> keys == [])
            && (|Below(seen, initialTheta)| <= k <==> v.theta == initialTheta)
            && (v.theta < initialTheta ==> |v.retained| == k && v.theta in seen)
  {
    var seen := Elements(keys);
    if keys == [] {
      assert Below(seen, initialTheta) == {};
    } else {
      SketchSettles(k, seedHash, initialTheta, keys);
      SettleSound(Fresh(k, seedHash, initialTheta), seen, seen, initialTheta);
      CutMeets(seen, k, initialTheta);
    }
  }

  /** Merging the sketch of `ys` into the sketch of `xs` must give the sketch of both. */
  ghost predicate MergeIsUnion(k: nat, p: nat, otherK: nat, otherP: nat) {
    forall seedHash: nat, xs: seq<nat>, ys: seq<nat> ::
      Merge(SketchOf(k, seedHash, p, xs), SketchOf(otherK, seedHash, otherP, ys)) == SketchOf(k, seedHash, p, xs + ys)
  }

  /** Exactly when it does: the other sketch must not have been sampled harder, and its
      nominal size must not be smaller unless this sketch's threshold is so low that the
      other can never fill up below it. */
  lemma MergeIsUnionExactly(k: nat, p: nat, otherK: nat, otherP: nat)
    requires Configured(k, p) && Configured(otherK, otherP)
    ensures MergeIsUnion(k, p, otherK, otherP) <==> p <= otherP && (k <= otherK || p <= otherK + 1)
  {
    if p <= otherP && (k <= otherK || p <= otherK + 1) {
      forall seedHash: nat, xs: seq<nat>, ys: seq<nat>
        ensures Merge(SketchOf(k, seedHash, p, xs), SketchOf(otherK, seedHash, otherP, ys))
             == SketchOf(k, seedHash, p, xs + ys)
      {
        MergeOfSketches(k, seedHash, p, xs, otherK, otherP, ys);
      }
    } else {
      MergeIsNotUnion(k, p, otherK, otherP);
    }
  }

  lemma MergeOfSketches(k: nat, seedHash: nat, p: nat, xs: seq<nat>, otherK: nat, otherP: nat, ys: seq<nat>)
    requires Configured(k, p) && Configured(otherK, otherP)
    requires p <= otherP && (k <= otherK || p <= otherK + 1)
    ensures Merge(SketchOf(k, seedHash, p, xs), SketchOf(otherK, seedHash, otherP, ys))
            == SketchOf(k, seedHash, p, xs + ys)
  {
    var v, other := SketchOf(k, seedHash, p, xs), SketchOf(otherK, seedHash, otherP, ys);
    CanonicalForm(k, seedHash, p, xs);
    CanonicalForm(otherK, seedHash, otherP, ys);
    if ys == [] {
      assert xs + ys == xs;
    } else {
      var a, b := Elements(xs), Elements(ys);
      var u := v.retained + other.retained;
      var theta := Min(v.theta, other.theta);
      assert Elements(xs + ys) == a + b;
      SketchSettles(k, seedHash, p, xs + ys);
      MergeSettles(v, other);
      SketchCut(k, seedHash, p, xs);
      assert v.theta == Cut(a, k, p);
      if v.theta <= other.theta {
        assert Below(u, theta) == Below(v.retained + b, theta);
        CutOfBelow(u, v.retained + b, k, theta);
        CutAbsorbs(a, b, k, p);
      } else {
        BelowSize(b, other.theta);
        FullOperandDecides(a, b, u, k, p, other.theta);
      }
    }
  }

  lemma SketchCut(k: nat, seedHash: nat, p: nat, keys: seq<nat>)
    requires Configured(k, p)
    ensures SketchOf(k, seedHash, p, keys).theta == Cut(Elements(keys), k, p)
  {
    if keys == [] {
      assert Below(Elements(keys), p) == {};
      CutIs(Elements(keys), k, p, p);
    } else {
      SketchSettles(k, seedHash, p, keys);
    }
  }

  /** If the operand's own theta d is below ours, the operand holds at least k hashes under
      d, so the union cannot need anything at or above d. */
  lemma FullOperandDecides(a: set<nat>, b: set<nat>, u: set<nat>, k: nat, p: nat, d: nat)
    requires d in b && 0 < d < p && |Below(b, d)| >= k
    requires Below(u, d) == Below(a + b, d)
    ensures Cut(u, k, d) == Cut(a + b, k, p)
    ensures Below(u, Cut(u, k, d)) == Below(a + b, Cut(a + b, k, p))
  {
    var e := Cut(u, k, d);
    CutMeets(u, k, d);
    SubsetSize(Below(b, d), Below(a + b, d));
    assert Below(u, e) == Below(Below(u, d), e);
    assert Below(a + b, e) == Below(Below(a + b, d), e);
    assert d in Below(a + b, p) && d !in Below(a + b, d);
    SubsetSize(Below(a + b, d) + {d}, Below(a + b, p));
    CutIs(a + b, k, p, e);
  }

  /** A history that separates merging from union when the condition fails: a key that is
      rejected everywhere if the operand was sampled harder, otherwise just enough small
      hashes to fill the operand. */
  lemma MergeIsNotUnion(k: nat, p: nat, otherK: nat, otherP: nat)
    requires Configured(k, p) && Configured(otherK, otherP)
    requires otherP < p || (otherK < k && otherK + 1 < p)
    ensures !MergeIsUnion(k, p, otherK, otherP)
  {
    if otherP < p {
      MergeLowersTheta(k, p, otherK, otherP, [0]);
    } else {
      var ys: seq<nat> := seq(otherK + 1, i => i + 1);
      forall h ensures h in Elements(ys) <==> h in Initial(otherK + 1) {
        if 1 <= h <= otherK + 1 {
          assert ys[h - 1] == h;
        }
      }
      assert Below(Elements(ys), p) == Below(Elements(ys), otherP) == Initial(otherK + 1);
      MergeLowersTheta(k, p, otherK, otherP, ys);
    }
  }

  lemma MergeLowersTheta(k: nat, p: nat, otherK: nat, otherP: nat, ys: seq<nat>)
    requires Configured(k, p) && Configured(otherK, otherP)
    requires ys != [] && |Below(Elements(ys), p)| <= k
    requires otherP < p || (|Below(Elements(ys), otherP)| > otherK && forall y :: y in ys ==> y < p)
    ensures !MergeIsUnion(k, p, otherK, otherP)
  {
    var none: seq<nat> := [];
    var other := SketchOf(otherK, 0, otherP, ys);
    CanonicalForm(otherK, 0, otherP, ys);
    CanonicalForm(k, 0, p, ys);
    assert none + ys == ys;
    assert other.theta < p && SketchOf(k, 0, p, none + ys).theta == p;
    MergeSettles(SketchOf(k, 0, p, none), other);
    CutMeets({} + other.retained, k, Min(p, other.theta));
  }

  // On sketches with the same configuration merging is therefore commutative,
  // associative and idempotent.

  lemma MergeCommutes(k: nat, seedHash: nat, p: nat, xs: seq<nat>, ys: seq<nat>)
    requires Configured(k, p)
    ensures Merge(SketchOf(k, seedHash, p, xs), SketchOf(k, seedHash, p, ys))
         == Merge(SketchOf(k, seedHash, p, ys), SketchOf(k, seedHash, p, xs))
  {
    MergeOfSketches(k, seedHash, p, xs, k, p, ys);
    MergeOfSketches(k, seedHash, p, ys, k, p, xs);
    assert Elements(xs + ys) == Elements(ys + xs);
    SameElements(Fresh(k, seedHash, p), xs + ys, ys + xs);
  }

  lemma MergeAssociates(k: nat, seedHash: nat, p: nat, xs: seq<nat>, ys: seq<nat>, zs: seq<nat>)
    requires Configured(k, p)
    ensures Merge(Merge(SketchOf(k, seedHash, p, xs), SketchOf(k, seedHash, p, ys)), SketchOf(k, seedHash, p, zs))
         == Merge(SketchOf(k, seedHash, p, xs), Merge(SketchOf(k, seedHash, p, ys), SketchOf(k, seedHash, p, zs)))
  {
    assert xs + ys + zs == xs + (ys + zs);
    var a, b, c := SketchOf(k, seedHash, p, xs), SketchOf(k, seedHash, p, ys), SketchOf(k, seedHash, p, zs);
    assert Merge(Merge(a, b), c) == SketchOf(k, seedHash, p, xs + ys + zs) by {
      MergeOfSketches(k, seedHash, p, xs, k, p, ys);
      MergeOfSketches(k, seedHash, p, xs + ys, k, p, zs);
    }
    assert Merge(a, Merge(b, c)) == SketchOf(k, seedHash, p, xs + (ys + zs)) by {
      MergeOfSketches(k, seedHash, p, ys, k, p, zs);
      MergeOfSketches(k, seedHash, p, xs, k, p, ys + zs);
    }
  }

  lemma MergeIdempotent(k: nat, seedHash: nat, p: nat, xs: seq<nat>)
    requires Configured(k, p)
    ensures Merge(SketchOf(k, seedHash, p, xs), SketchOf(k, seedHash, p, xs)) == SketchOf(k, seedHash, p, xs)
  {
    MergeOfSketches(k, seedHash, p, xs, k, p, xs);
    assert Elements(xs + xs) == Elements(xs);
    SameElements(Fresh(k, seedHash, p), xs + xs, xs);
  }
}
