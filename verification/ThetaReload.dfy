/** Saving a sketch as a compact image and loading it again. */
module ThetaReload {
  import opened HashSets
  import opened LittleEndian
  import opened ThetaImage
  import opened ThetaSpec

  datatype Load = Loaded(view: View) | Refused

  /** What an image says about a sketch: neither the nominal size nor the sampling. */
  ghost function Content(v: View): Compact {
    Compact(v.empty, EffectiveTheta(v), Enumerate(v.retained))
  }

  ghost function Serialize(v: View): seq<byte> {
    Image(Content(v), v.seedHash)
  }

  function Install(image: Compact, k: nat, seedHash: nat): Load {
    if |image.entries| > k then Refused
    else
      var theta := if image.empty then MAX_THETA else image.theta;
      Loaded(View(k, seedHash, MAX_THETA, theta, image.empty, Elements(image.entries)))
  }

  function Deserialize(bytes: seq<byte>, k: nat, seedHash: nat): Load {
    match Parse(bytes, seedHash)
    case Accepted(image) => Install(image, k, seedHash)
    case Rejected(_) => Refused
  }

  lemma ContentSound(v: View)
    requires Valid(v)
    ensures Sound(Content(v))
  {
    var entries := Enumerate(v.retained);
    forall i | 0 <= i < |entries| ensures 0 < entries[i] < v.theta {
      assert entries[i] in Elements(entries);
    }
  }

  /** Whatever bytes are accepted, the loaded sketch satisfies the sketch invariant. */
  lemma DeserializedValid(bytes: seq<byte>, k: nat, seedHash: nat)
    requires 0 < k <= MAX_NOMINAL
    ensures var load := Deserialize(bytes, k, seedHash);
            load.Loaded? ==> Valid(load.view) && load.view.k == k
  {
    if Deserialize(bytes, k, seedHash).Loaded? {
      AcceptedFields(bytes, seedHash);
      InstalledValid(Parse(bytes, seedHash).image, k, seedHash);
    }
  }

  lemma InstalledValid(image: Compact, k: nat, seedHash: nat)
    requires 0 < k <= MAX_NOMINAL && Sound(image)
    ensures var load := Install(image, k, seedHash);
            load.Loaded? ==> Valid(load.view) && load.view.k == k
  {
    SortedSize(image.entries);
    assert Below(Elements(image.entries), image.theta) == Elements(image.entries);
  }

  /** A saved sketch loads into any nominal size that can hold its entries, and comes back
      with the same flag, effective theta and entries, but unsampled. */
  lemma Reloaded(v: View, k: nat)
    requires Valid(v) && v.seedHash < 0x1_0000 && 0 < k
    ensures Deserialize(Serialize(v), k, v.seedHash) ==
              if |v.retained| > k then Refused
              else Loaded(Restore(v, k))
  {
    ContentSound(v);
    RoundTrip(Content(v), v.seedHash);
  }

  ghost predicate Indistinguishable(v: View, w: View) {
    forall keys: seq<nat> :: Serialize(Update(v, keys)) == Serialize(Update(w, keys))
  }

  // ----- further updates -----

  /** The reloaded sketch follows the original through every further update exactly if the
      image has lost nothing that matters: not the sampling of an empty sketch, and not a
      nominal size that the hashes below theta could still fill. */
  lemma ReloadFaithfulExactly(v: View, k: nat)
    requires Valid(v) && v.seedHash < 0x1_0000
    requires 0 < k <= MAX_NOMINAL && |v.retained| <= k
    ensures var w := Deserialize(Serialize(v), k, v.seedHash);
            && w.Loaded?
            && (Indistinguishable(v, w.view)
                <==> (!v.empty || v.initialTheta == MAX_THETA) && (k == v.k || v.theta <= Min(k, v.k) + 1))
  {
    Reloaded(v, k);
    var w := Restore(v, k);
    if v.empty && v.initialTheta < MAX_THETA {
      RejectedKeySeparates(v, w);
    } else if k == v.k || v.theta <= Min(k, v.k) + 1 {
      forall keys: seq<nat> ensures Serialize(Update(v, keys)) == Serialize(Update(w, keys)) {
        SameUpdate(v, w, keys);
      }
    } else {
      SmallestKeysSeparate(v, w);
    }
  }

  // ----- further operations of every kind -----

  datatype Operation =
    | UpdateWith(keys: seq<nat>)
    | MergeWith(other: View)
    | IntersectWith(other: View)
    | SubtractWith(other: View)
    | Clear

  ghost predicate Possible(op: Operation) {
    match op
    case UpdateWith(_) => true
    case MergeWith(other) => Valid(other)
    case IntersectWith(other) => Valid(other)
    case SubtractWith(other) => Valid(other)
    case Clear => true
  }

  ghost function Perform(v: View, op: Operation): View {
    match op
    case UpdateWith(keys) => Update(v, keys)
    case MergeWith(other) => Merge(v, other)
    case IntersectWith(other) => Intersect(v, other)
    case SubtractWith(other) => ANotB(v, other)
    case Clear => Reset(v)
  }

  ghost function PerformAll(v: View, ops: seq<Operation>): View
    decreases |ops|
  {
    if ops == [] then v else PerformAll(Perform(v, ops[0]), ops[1..])
  }

  ghost predicate Interchangeable(v: View, w: View) {
    forall ops: seq<Operation> :: (forall op :: op in ops ==> Possible(op)) ==>
      Serialize(PerformAll(v, ops)) == Serialize(PerformAll(w, ops))
  }

  /** The reloaded sketch can stand in for the original under all operations exactly if the
      original was unsampled and k is its own; a reset brings out any difference. */
  lemma InterchangeableExactly(v: View, k: nat)
    requires Valid(v) && v.seedHash < 0x1_0000
    requires 0 < k <= MAX_NOMINAL && |v.retained| <= k
    ensures var w := Deserialize(Serialize(v), k, v.seedHash);
            && w.Loaded?
            && (Interchangeable(v, w.view) <==> v.initialTheta == MAX_THETA && k == v.k)
            && (Indistinguishable(Reset(v), Reset(w.view)) <==> v.initialTheta == MAX_THETA && k == v.k)
  {
    Reloaded(v, k);
    var w := Restore(v, k);
    if v.initialTheta == MAX_THETA && k == v.k {
      assert w == v;
    } else {
      ResetSeparates(v, w);
      ResetSuffices(v, w);
    }
  }

  lemma ResetSuffices(v: View, w: View)
    requires !Indistinguishable(Reset(v), Reset(w))
    ensures !Interchangeable(v, w)
  {
    var keys :| Serialize(Update(Reset(v), keys)) != Serialize(Update(Reset(w), keys));
    ResetThenUpdate(v, keys);
    ResetThenUpdate(w, keys);
  }

  lemma ResetThenUpdate(v: View, keys: seq<nat>)
    ensures var ops := [Clear, UpdateWith(keys)];
            PerformAll(v, ops) == Update(Reset(v), keys) && forall op :: op in ops ==> Possible(op)
  {
    var u := Reset(v);
    assert [Clear, UpdateWith(keys)][1..] == [UpdateWith(keys)];
    assert PerformAll(u, [UpdateWith(keys)]) == PerformAll(Update(u, keys), []);
  }

  lemma ResetSeparates(v: View, w: View)
    requires Valid(v) && Valid(w) && v.seedHash == w.seedHash < 0x1_0000
    requires w.initialTheta == MAX_THETA && (v.initialTheta < MAX_THETA || v.k != w.k)
    ensures !Indistinguishable(Reset(v), Reset(w))
  {
    if v.initialTheta < MAX_THETA {
      RejectedKeySeparates(Reset(v), Reset(w));
    } else {
      SmallestKeysSeparate(Reset(v), Reset(w));
    }
  }

  // ----- telling two sketches apart -----

  lemma SameUpdate(v: View, w: View, keys: seq<nat>)
    requires w.theta == v.theta && w.retained == v.retained && w.empty == v.empty && w.seedHash == v.seedHash
    requires 0 < v.theta && (w.k == v.k || v.theta <= Min(w.k, v.k) + 1)
    ensures Serialize(Update(v, keys)) == Serialize(Update(w, keys))
  {
    if keys != [] {
      BelowSize(Passing(v.retained, Elements(keys), v.theta), v.theta);
    }
    assert Content(Update(v, keys)) == Content(Update(w, keys));
  }

  lemma DifferentThetas(v: View, w: View)
    requires Valid(v) && Valid(w) && v.seedHash == w.seedHash < 0x1_0000
    requires !v.empty && !w.empty && v.theta != w.theta
    ensures Serialize(v) != Serialize(w)
  {
    ContentSound(v);
    ContentSound(w);
    ImageInjective(Content(v), Content(w), v.seedHash);
  }

  /** A key that is rejected everywhere leaves only the starting theta to tell. */
  lemma RejectedKeySeparates(v: View, w: View)
    requires Valid(v) && Valid(w) && v.seedHash == w.seedHash < 0x1_0000
    requires v.retained == w.retained == {} && v.theta != w.theta
    ensures Serialize(Update(v, [0])) != Serialize(Update(w, [0]))
  {
    NothingNew(v, [0]);
    NothingNew(w, [0]);
    DifferentThetas(Update(v, [0]), Update(w, [0]));
  }

  lemma NothingNew(v: View, keys: seq<nat>)
    requires Valid(v) && v.retained == {} && keys != [] && Below(Elements(keys), v.theta) == {}
    ensures Update(v, keys) == v.(empty := false)
  {
    assert Passing({}, Elements(keys), v.theta) == {};
    assert Below({}, v.theta) == {};
  }

  /** The m + 1 smallest hashes, m being the smaller nominal size, fill that sketch and cut
      it at m + 1; the other one still has room. */
  lemma SmallestKeysSeparate(v: View, w: View)
    requires Valid(v) && Valid(w) && v.seedHash == w.seedHash < 0x1_0000
    requires v.retained == w.retained && v.theta == w.theta
    requires v.k != w.k && v.theta > Min(v.k, w.k) + 1
    ensures exists keys :: Serialize(Update(v, keys)) != Serialize(Update(w, keys))
  {
    var m := Min(v.k, w.k);
    var keys: seq<nat> := seq(m + 1, i => i + 1);
    var all := v.retained + Elements(keys);
    SmallestHashes(v.retained, keys, m);
    SmallerCutsThere(all, m, Max(v.k, w.k), v.theta);
    UpdateSettles(v, keys);
    UpdateSettles(w, keys);
    SettleSound(v, all, all, v.theta);
    SettleSound(w, all, all, w.theta);
    DifferentThetas(Update(v, keys), Update(w, keys));
  }

  lemma SmallestHashes(s: set<nat>, keys: seq<nat>, m: nat)
    requires keys == seq(m + 1, i => i + 1)
    ensures m + 1 in s + Elements(keys) && |Below(s + Elements(keys), m + 1)| == m
  {
    var all := s + Elements(keys);
    forall h ensures h in Below(all, m + 1) <==> h in Initial(m) {
      if h in Initial(m) {
        assert keys[h - 1] == h;
      }
    }
    assert Below(all, m + 1) == Initial(m);
    assert keys[m] == m + 1;
  }

  lemma SmallerCutsThere(s: set<nat>, m: nat, larger: nat, theta: nat)
    requires m < larger && m + 1 < theta && m + 1 in s
    requires |Below(s, m + 1)| == m
    ensures Cut(s, m, theta) == m + 1 != Cut(s, larger, theta)
  {
    SubsetSize(Below(s, m + 1) + {m + 1}, Below(s, theta));
    CutIs(s, m, theta, m + 1);
    CutMeets(s, larger, theta);
  }
}
