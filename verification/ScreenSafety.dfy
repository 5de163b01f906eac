/** What every interleaving of the screening kernel keeps, and what it has produced when
    the last warp exits. */
module ScreenSafety {
  import opened HashSets
  import opened ScreenKernel

  // ----- grid-stride coverage -----

  /** A key index determines its block, tile step, item, warp and lane. */
  lemma IndexParts(c: Launch, w: nat, tile: nat, item: nat, lane: nat)
    requires w < c.grid * WARPS_PER_BLOCK && item < ITEMS && lane < WARP_WIDTH
    ensures var i := Index(c, w, tile, item, lane);
            && OwnerWarp(c, i) == w && OwnerTile(c, i) == tile
            && OwnerItem(i) == item && OwnerLane(i) == lane
  {
    var t := w / WARPS_PER_BLOCK + tile * c.grid;
    TileParts(t, item, w % WARPS_PER_BLOCK, lane);
    Quotient(w / WARPS_PER_BLOCK, tile, c.grid);
  }

  lemma TileParts(t: nat, item: nat, warp: nat, lane: nat)
    requires item < ITEMS && warp < WARPS_PER_BLOCK && lane < WARP_WIDTH
    ensures var i := t * TILE_KEYS + item * BLOCK_THREADS + warp * WARP_WIDTH + lane;
            && i / TILE_KEYS == t
            && i % TILE_KEYS / BLOCK_THREADS == item
            && i % BLOCK_THREADS / WARP_WIDTH == warp
            && i % WARP_WIDTH == lane
  {
    var thread := warp * WARP_WIDTH + lane;
    var i := t * TILE_KEYS + item * BLOCK_THREADS + thread;
    Quotient(item * BLOCK_THREADS + thread, t, TILE_KEYS);
    Quotient(thread, item, BLOCK_THREADS);
    Quotient(thread, t * ITEMS + item, BLOCK_THREADS);
    Quotient(lane, warp, WARP_WIDTH);
    Quotient(lane, (t * ITEMS + item) * WARPS_PER_BLOCK + warp, WARP_WIDTH);
  }

  lemma Quotient(r: nat, q: nat, d: nat)
    requires r < d
    ensures (r + q * d) / d == q && (r + q * d) % d == r
  {
    var n := r + q * d;
    MultipleGap(n / d, q, d);
    MultipleGap(q, n / d, d);
  }

  lemma MultipleGap(a: nat, b: nat, d: nat)
    ensures a < b ==> a * d + d <= b * d
  {
    if a < b {
      Distribute(b - a - 1, a + 1, d);
      Distribute(a, 1, d);
    }
  }

  lemma Distribute(a: nat, b: nat, d: nat)
    ensures (a + b) * d == a * d + b * d && a * d >= 0
  {}

  function OwnerWarp(c: Launch, i: nat): nat
    requires c.grid > 0
  {
    i / TILE_KEYS % c.grid * WARPS_PER_BLOCK + i % BLOCK_THREADS / WARP_WIDTH
  }

  function OwnerTile(c: Launch, i: nat): nat
    requires c.grid > 0
  {
    i / TILE_KEYS / c.grid
  }

  function OwnerItem(i: nat): nat {
    i % TILE_KEYS / BLOCK_THREADS
  }

  function OwnerLane(i: nat): nat {
    i % WARP_WIDTH
  }

  /** Every key index is visited by some lane, whatever the grid. */
  lemma IndexOwned(c: Launch, i: nat)
    requires c.grid > 0
    ensures OwnerWarp(c, i) < c.grid * WARPS_PER_BLOCK && OwnerItem(i) < ITEMS && OwnerLane(i) < WARP_WIDTH
    ensures Index(c, OwnerWarp(c, i), OwnerTile(c, i), OwnerItem(i), OwnerLane(i)) == i
  {
    var t := i / TILE_KEYS;
    Remainder(t, c.grid);
    InTile(i);
    assert OwnerWarp(c, i) / WARPS_PER_BLOCK == t % c.grid;
  }

  lemma Remainder(n: nat, d: nat)
    requires d > 0
    ensures n % d + n / d * d == n && n % d < d
  {}

  lemma InTile(i: nat)
    ensures i / TILE_KEYS * TILE_KEYS + OwnerItem(i) * BLOCK_THREADS
            + i % BLOCK_THREADS / WARP_WIDTH * WARP_WIDTH + OwnerLane(i) == i
    ensures OwnerItem(i) < ITEMS && i % BLOCK_THREADS / WARP_WIDTH < WARPS_PER_BLOCK
  {
    var t, inTile := i / TILE_KEYS, i % TILE_KEYS;
    var item, thread := inTile / BLOCK_THREADS, inTile % BLOCK_THREADS;
    assert i == (t * ITEMS + item) * BLOCK_THREADS + thread;
    Quotient(thread, t * ITEMS + item, BLOCK_THREADS);
    var warp, lane := thread / WARP_WIDTH, thread % WARP_WIDTH;
    assert i == ((t * ITEMS + item) * WARPS_PER_BLOCK + warp) * WARP_WIDTH + lane;
    Quotient(lane, (t * ITEMS + item) * WARPS_PER_BLOCK + warp, WARP_WIDTH);
  }

  lemma BaseMonotone(c: Launch, w: nat, tile: nat, later: nat)
    requires tile <= later
    ensures Base(c, w, tile) <= Base(c, w, later)
    ensures tile < later && c.grid > 0 ==> Base(c, w, tile) + TILE_KEYS <= Base(c, w, later)
  {
    assert later * c.grid == tile * c.grid + (later - tile) * c.grid;
    if tile < later && c.grid > 0 {
      assert (later - tile) * c.grid >= 1;
    }
  }

  // ----- shape -----

  lemma StartShape(c: Launch)
    ensures Shape(c, Start(c))
  {
    assert Idle()[0] == Waiting;
  }

  lemma AfterLaneShape(c: Launch, w: nat, warp: Warp, lanes: seq<Lane>)
    requires WarpShape(c, w, warp) && warp.phase.Filtering? && !Exited(c, w, warp.tile)
    requires |lanes| == WARP_WIDTH
    requires forall l :: 0 <= l < WARP_WIDTH ==> LaneShape(c, w, warp, l, lanes[l])
    ensures WarpShape(c, w, AfterLane(warp, lanes))
  {
    assert Idle()[0] == Waiting;
  }

  lemma NextTileShape(c: Launch, w: nat, warp: Warp)
    ensures WarpShape(c, w, NextTile(warp))
  {
    assert Idle()[0] == Waiting;
  }

  lemma LaneStepShape(c: Launch, s: State, step: Step)
    requires Shape(c, s) && Enabled(c, s, step) && (step.Load? || step.Store?)
    ensures WarpShape(c, step.w, Apply(c, s, step).warps[step.w])
  {
    var w, l := step.w, step.lane;
    var warp := s.warps[w];
    var h := Candidate(c, w, warp.tile, |warp.kept|, l);
    var lane :=
      if step.Load? then if Leader(c, w, warp.tile, |warp.kept|, l) then Loaded(step.value) else Settled(0)
      else Settled(if warp.phase.lanes[l].value == h then 0 else h);
    AfterLaneShape(c, w, warp, warp.phase.lanes[l := lane]);
  }

  lemma AfterReserveShape(c: Launch, w: nat, warp: Warp, base: nat)
    requires WarpShape(c, w, warp) && warp.phase.Reserving? && !Exited(c, w, warp.tile)
    ensures WarpShape(c, w, AfterReserve(warp, base))
  {
    assert AfterReserve(warp, base).phase.next[0] == 0;
  }

  lemma ReserveShape(c: Launch, s: State, step: Step)
    requires Shape(c, s) && Enabled(c, s, step) && step.Reserve?
    ensures WarpShape(c, step.w, Apply(c, s, step).warps[step.w])
  {
    NextTileShape(c, step.w, s.warps[step.w]);
    AfterReserveShape(c, step.w, s.warps[step.w], s.count);
  }

  lemma MineStep(kept: seq<seq<nat>>, l: nat, i: nat)
    requires Rows(kept) && l < WARP_WIDTH && i < |kept|
    ensures Mine(kept, l, i + 1) == Mine(kept, l, i) + if kept[i][l] != 0 then 1 else 0
  {}

  lemma AfterWriteShape(c: Launch, w: nat, warp: Warp, l: nat)
    requires WarpShape(c, w, warp) && !Exited(c, w, warp.tile) && Turn(warp, l)
    ensures WarpShape(c, w, AfterWrite(warp, l))
  {
    NextTileShape(c, w, warp);
    if AfterWrite(warp, l).phase.Writing? {
      CursorsMove(warp, l);
    }
  }

  /** Passing an item moves the lane's cursor exactly if the item is one of its emissions. */
  lemma CursorsMove(warp: Warp, l: nat)
    requires Turn(warp, l) && CursorsPlaced(warp) && AfterWrite(warp, l).phase.Writing?
    ensures CursorsPlaced(AfterWrite(warp, l))
  {
    MineStep(warp.kept, l, warp.phase.next[l]);
  }

  lemma WriteShape(c: Launch, s: State, step: Step)
    requires Shape(c, s) && Enabled(c, s, step) && step.Write?
    ensures WarpShape(c, step.w, Apply(c, s, step).warps[step.w])
  {
    AfterWriteShape(c, step.w, s.warps[step.w], step.lane);
  }

  lemma StepShape(c: Launch, s: State, step: Step)
    requires Shape(c, s) && Enabled(c, s, step)
    ensures WarpShape(c, step.w, Apply(c, s, step).warps[step.w])
  {
    match step
    case Reserve(_) => ReserveShape(c, s, step);
    case Write(_, _) => WriteShape(c, s, step);
    case _ => LaneStepShape(c, s, step);
  }

  lemma FilterShapeKept(c: Launch, s: State, step: Step)
    requires Shape(c, s) && Enabled(c, s, step)
    ensures FilterShape(c, Apply(c, s, step).filter)
  {}

  /** A step touches one warp only, and counts what it logs. */
  lemma ApplyFrame(c: Launch, s: State, step: Step)
    requires Shape(c, s) && Enabled(c, s, step)
    ensures var s' := Apply(c, s, step);
            && |s'.warps| == |s.warps| && s'.warps == s.warps[step.w := s'.warps[step.w]]
            && |s'.out| == |s.out| && s'.count == |s'.log|
  {}

  lemma ShapeKept(c: Launch, s: State, step: Step)
    requires Shape(c, s) && Enabled(c, s, step)
    ensures Shape(c, Apply(c, s, step))
  {
    StepShape(c, s, step);
    FilterShapeKept(c, s, step);
    ApplyFrame(c, s, step);
    ShapeFrame(c, s, step.w, Apply(c, s, step));
  }

  lemma ShapeFrame(c: Launch, s: State, w: nat, s': State)
    requires Shape(c, s) && w < |s.warps| == |s'.warps|
    requires s'.warps == s.warps[w := s'.warps[w]] && WarpShape(c, w, s'.warps[w])
    requires FilterShape(c, s'.filter) && |s'.out| == |s.out| && s'.count == |s'.log|
    ensures Shape(c, s')
  {
    forall v | 0 <= v < |s'.warps| ensures WarpShape(c, v, s'.warps[v]) {
      assert WarpShape(c, v, s.warps[v]);
    }
  }

  // ----- no surviving hash is lost -----

  predicate Covered(c: Launch, emitted: set<nat>, w: nat, tile: nat, item: nat, lane: nat) {
    Candidate(c, w, tile, item, lane) == 0 || Candidate(c, w, tile, item, lane) in emitted
  }

  /** A lane that has settled, or whose load has returned its own hash, is covered; a lane
      that is not the leader of its hash waits for the leader. */
  ghost predicate LaneSecure(c: Launch, w: nat, warp: Warp, l: nat, lane: Lane, emitted: set<nat>) {
    Leader(c, w, warp.tile, |warp.kept|, l) ==>
      match lane
      case Waiting => true
      case Loaded(v) => v == Candidate(c, w, warp.tile, |warp.kept|, l) ==> v in emitted
      case Settled(_) => Covered(c, emitted, w, warp.tile, |warp.kept|, l)
  }

  ghost predicate WarpSecure(c: Launch, w: nat, warp: Warp, emitted: set<nat>) {
    && (forall t: nat, i: nat, l: nat :: t < warp.tile && i < ITEMS && l < WARP_WIDTH ==>
          Covered(c, emitted, w, t, i, l))
    && (forall i: nat, l: nat :: i < |warp.kept| && l < WARP_WIDTH ==> Covered(c, emitted, w, warp.tile, i, l))
    && (warp.phase.Filtering? ==>
          forall l: nat :: l < |warp.phase.lanes| ==> LaneSecure(c, w, warp, l, warp.phase.lanes[l], emitted))
  }

  ghost predicate FilterSecure(s: State) {
    forall b, i, h :: 0 <= b < |s.filter| && 0 <= i < |s.filter[b]| && h in s.filter[b][i] ==> h == 0 || h in s.emitted
  }

  /** The warp has hash h in a register and has not reserved a slot for it yet. */
  ghost predicate Holds(warp: Warp, h: nat) {
    match warp.phase
    case Filtering(lanes) => InRows(warp.kept, h) || Settled(h) in lanes
    case Reserving => InRows(warp.kept, h)
    case Writing(_, _, _) => false
  }

  ghost predicate InRows(kept: seq<seq<nat>>, h: nat) {
    exists i :: 0 <= i < |kept| && h in kept[i]
  }

  ghost predicate Logged(log: seq<Emission>, h: nat) {
    exists p :: 0 <= p < |log| && log[p].hash == h
  }

  ghost predicate Accounted(s: State, h: nat) {
    h != 0 && (Logged(s.log, h) || exists w :: 0 <= w < |s.warps| && Holds(s.warps[w], h))
  }

  ghost predicate Secure(c: Launch, s: State) {
    && FilterSecure(s)
    && (forall w :: 0 <= w < |s.warps| ==> WarpSecure(c, w, s.warps[w], s.emitted))
    && (forall h :: h in s.emitted ==> Accounted(s, h))
  }

  /** Every lane with something to emit has a leader, at or below it, with the same hash. */
  lemma {:induction false} LeaderExists(c: Launch, w: nat, tile: nat, item: nat, lane: nat) returns (l: nat)
    requires Candidate(c, w, tile, item, lane) != 0
    ensures l <= lane && Leader(c, w, tile, item, l)
    ensures Candidate(c, w, tile, item, l) == Candidate(c, w, tile, item, lane)
    decreases lane
  {
    if Leader(c, w, tile, item, lane) {
      l := lane;
    } else {
      var lower: nat :| lower < lane && Candidate(c, w, tile, item, lower) == Candidate(c, w, tile, item, lane);
      l := LeaderExists(c, w, tile, item, lower);
    }
  }

  lemma AfterLaneSecure(c: Launch, w: nat, warp: Warp, lanes: seq<Lane>, emitted: set<nat>)
    requires WarpSecure(c, w, warp, emitted) && |lanes| == WARP_WIDTH
    requires forall l: nat :: l < WARP_WIDTH ==> LaneSecure(c, w, warp, l, lanes[l], emitted)
    ensures WarpSecure(c, w, AfterLane(warp, lanes), emitted)
  {
    if AllSettled(lanes) {
      forall l: nat | l < WARP_WIDTH ensures Covered(c, emitted, w, warp.tile, |warp.kept|, l) {
        if Candidate(c, w, warp.tile, |warp.kept|, l) != 0 {
          var leader := LeaderExists(c, w, warp.tile, |warp.kept|, l);
          assert LaneSecure(c, w, warp, leader, lanes[leader], emitted);
        }
      }
    }
  }

  lemma WarpSecureGrows(c: Launch, w: nat, warp: Warp, emitted: set<nat>, more: set<nat>)
    requires WarpSecure(c, w, warp, emitted) && emitted <= more
    ensures WarpSecure(c, w, warp, more)
  {
    forall t: nat, i: nat, l: nat | t < warp.tile && i < ITEMS && l < WARP_WIDTH ensures Covered(c, more, w, t, i, l) {
      assert Covered(c, emitted, w, t, i, l);
    }
    forall i: nat, l: nat | i < |warp.kept| && l < WARP_WIDTH ensures Covered(c, more, w, warp.tile, i, l) {
      assert Covered(c, emitted, w, warp.tile, i, l);
    }
    if warp.phase.Filtering? {
      forall l: nat | l < |warp.phase.lanes| ensures LaneSecure(c, w, warp, l, warp.phase.lanes[l], more) {
        assert LaneSecure(c, w, warp, l, warp.phase.lanes[l], emitted);
      }
    }
  }

  lemma NextTileSecure(c: Launch, w: nat, warp: Warp, emitted: set<nat>)
    requires WarpSecure(c, w, warp, emitted) && |warp.kept| == ITEMS
    ensures WarpSecure(c, w, NextTile(warp), emitted)
  {}

  /** Whatever a warp holds in its rows or settled lanes it still holds afterwards. */
  lemma AfterLaneHolds(warp: Warp, lanes: seq<Lane>, h: nat)
    requires InRows(warp.kept, h) || Settled(h) in lanes
    ensures Holds(AfterLane(warp, lanes), h)
  {
    if AllSettled(lanes) {
      var kept := AfterLane(warp, lanes).kept;
      if InRows(warp.kept, h) {
        var i :| 0 <= i < |warp.kept| && h in warp.kept[i];
        assert h in kept[i];
      } else {
        var l :| 0 <= l < |lanes| && lanes[l] == Settled(h);
        assert kept[|warp.kept|][l] == h;
      }
    }
  }

  /** The run of a warp has lane l's item i at the lane's scan offset plus its rank. */
  lemma {:induction false} RunAt(w: nat, tile: nat, kept: seq<seq<nat>>, m: nat, l: nat, i: nat)
    requires Rows(kept) && l < m <= WARP_WIDTH && i < |kept| && kept[i][l] != 0
    ensures var p := Scan(kept, l) + Mine(kept, l, i);
            p < Scan(kept, m) && WarpRun(w, tile, kept, m)[p] == Emission(kept[i][l], w, tile, i, l)
  {
    if l == m - 1 {
      LaneRunAt(w, tile, kept, l, |kept|, i);
    } else {
      RunAt(w, tile, kept, m - 1, l, i);
    }
  }

  lemma {:induction false} LaneRunAt(w: nat, tile: nat, kept: seq<seq<nat>>, l: nat, n: nat, i: nat)
    requires Rows(kept) && l < WARP_WIDTH && i < n <= |kept| && kept[i][l] != 0
    ensures Mine(kept, l, i) < Mine(kept, l, n)
    ensures LaneRun(w, tile, kept, l, n)[Mine(kept, l, i)] == Emission(kept[i][l], w, tile, i, l)
  {
    if i < n - 1 {
      LaneRunAt(w, tile, kept, l, n - 1, i);
    }
  }

  lemma SecureAfterLane(c: Launch, s: State, w: nat, lanes: seq<Lane>, s': State)
    requires Shape(c, s) && Secure(c, s) && w < |s.warps|
    requires s.warps[w].phase.Filtering? && |lanes| == WARP_WIDTH
    requires s'.warps == s.warps[w := AfterLane(s.warps[w], lanes)] && s'.log == s.log
    requires s.emitted <= s'.emitted && FilterSecure(s')
    requires forall l: nat :: l < WARP_WIDTH ==> LaneSecure(c, w, s.warps[w], l, lanes[l], s'.emitted)
    requires forall h :: h in s.emitted && Settled(h) in s.warps[w].phase.lanes ==> Settled(h) in lanes
    requires forall h :: h in s'.emitted && h !in s.emitted ==> h != 0 && Settled(h) in lanes
    ensures Secure(c, s')
  {
    forall v | 0 <= v < |s'.warps| ensures WarpSecure(c, v, s'.warps[v], s'.emitted) {
      WarpSecureGrows(c, v, s.warps[v], s.emitted, s'.emitted);
      if v == w {
        AfterLaneSecure(c, w, s.warps[w], lanes, s'.emitted);
      }
    }
    forall h | h in s'.emitted ensures Accounted(s', h) {
      if h !in s.emitted {
        AfterLaneHolds(s.warps[w], lanes, h);
        assert Holds(s'.warps[w], h);
      } else if !Logged(s.log, h) {
        var v :| 0 <= v < |s.warps| && Holds(s.warps[v], h);
        if v == w {
          AfterLaneHolds(s.warps[w], lanes, h);
        }
        assert Holds(s'.warps[v], h);
      }
    }
  }

  lemma LoadSecure(c: Launch, s: State, step: Step)
    requires Shape(c, s) && Secure(c, s) && Enabled(c, s, step) && step.Load?
    ensures Secure(c, Apply(c, s, step))
  {
    var Load(w, l, value) := step;
    var warp := s.warps[w];
    var lane := if Leader(c, w, warp.tile, |warp.kept|, l) then Loaded(value) else Settled(0);
    var lanes := warp.phase.lanes[l := lane];
    assert LaneSecure(c, w, warp, l, lane, s.emitted);
    forall h | h in s.emitted && Settled(h) in warp.phase.lanes ensures Settled(h) in lanes {
      var m :| 0 <= m < WARP_WIDTH && warp.phase.lanes[m] == Settled(h);
      assert lanes[m] == Settled(h);
    }
    SecureAfterLane(c, s, w, lanes, Apply(c, s, step));
  }

  lemma StoreSecure(c: Launch, s: State, step: Step)
    requires Shape(c, s) && Secure(c, s) && Enabled(c, s, step) && step.Store?
    ensures Secure(c, Apply(c, s, step))
  {
    var Store(w, l) := step;
    var warp := s.warps[w];
    var s' := Apply(c, s, step);
    assert LaneShape(c, w, warp, l, warp.phase.lanes[l]) && LaneSecure(c, w, warp, l, warp.phase.lanes[l], s.emitted);
    var h := Candidate(c, w, warp.tile, |warp.kept|, l);
    var lane := Settled(if warp.phase.lanes[l].value == h then 0 else h);
    var lanes := warp.phase.lanes[l := lane];
    assert lanes[l] == lane;
    forall m: nat | m < WARP_WIDTH ensures LaneSecure(c, w, warp, m, lanes[m], s'.emitted) {
      assert LaneSecure(c, w, warp, m, warp.phase.lanes[m], s.emitted);
    }
    forall g | g in s.emitted && Settled(g) in warp.phase.lanes ensures Settled(g) in lanes {
      var m :| 0 <= m < WARP_WIDTH && warp.phase.lanes[m] == Settled(g);
      assert lanes[m] == Settled(g);
    }
    SecureAfterLane(c, s, w, lanes, s');
  }

  /** The hash lane l has settled on for the item at hand, once the lane has moved to it. */
  ghost predicate SettledOn(warp: Warp, item: nat, l: nat, h: nat) {
    if item < |warp.kept| then l < |warp.kept[item]| && warp.kept[item][l] == h
    else warp.phase.Filtering? && l < |warp.phase.lanes| && warp.phase.lanes[l] == Settled(h)
  }

  /** A filter hit drops the hash and leaves the filter alone; otherwise the hash is let
      through and stored. */
  lemma StoreExactly(c: Launch, s: State, step: Step)
    requires Shape(c, s) && Enabled(c, s, step) && step.Store?
    ensures var Store(w, l) := step;
            var warp, s' := s.warps[w], Apply(c, s, step);
            var item, b := |warp.kept|, w / WARPS_PER_BLOCK;
            var h := Candidate(c, w, warp.tile, item, l);
            && s'.log == s.log && s'.out == s.out
            && (warp.phase.lanes[l].value == h ==>
                  s'.filter == s.filter && s'.emitted == s.emitted && SettledOn(s'.warps[w], item, l, 0))
            && (warp.phase.lanes[l].value != h ==>
                  h in s'.filter[b][h % 1024] && s'.emitted == s.emitted + {h} && SettledOn(s'.warps[w], item, l, h))
  {
    var w, l := step.w, step.lane;
    var warp := s.warps[w];
    assert WarpShape(c, w, warp) && FilterShape(c, s.filter);
    var h := Candidate(c, w, warp.tile, |warp.kept|, l);
    AfterLaneSettles(warp, l, if warp.phase.lanes[l].value == h then 0 else h);
  }

  lemma AfterLaneSettles(warp: Warp, l: nat, h: nat)
    requires warp.phase.Filtering? && l < |warp.phase.lanes|
    ensures SettledOn(AfterLane(warp, warp.phase.lanes[l := Settled(h)]), |warp.kept|, l, h)
  {}

  lemma HeldGetsLogged(w: nat, tile: nat, kept: seq<seq<nat>>, h: nat)
    requires Rows(kept) && InRows(kept, h) && h != 0
    ensures Logged(WarpRun(w, tile, kept, WARP_WIDTH), h)
  {
    var i :| 0 <= i < |kept| && h in kept[i];
    var l: nat :| l < WARP_WIDTH && kept[i][l] == h;
    RunAt(w, tile, kept, WARP_WIDTH, l, i);
  }

  lemma LoggedConcat(log: seq<Emission>, run: seq<Emission>, h: nat)
    requires Logged(log, h) || Logged(run, h)
    ensures Logged(log + run, h)
  {
    if Logged(log, h) {
      var p :| 0 <= p < |log| && log[p].hash == h;
      assert (log + run)[p].hash == h;
    } else {
      var p :| 0 <= p < |run| && run[p].hash == h;
      assert (log + run)[|log| + p].hash == h;
    }
  }

  lemma ReserveAccounts(c: Launch, s: State, step: Step, h: nat)
    requires Shape(c, s) && Enabled(c, s, step) && step.Reserve?
    requires Accounted(s, h)
    ensures Accounted(Apply(c, s, step), h)
  {
    var w := step.w;
    var warp := s.warps[w];
    var run := WarpRun(w, warp.tile, warp.kept, WARP_WIDTH);
    var s' := Apply(c, s, step);
    assert s'.log == s.log + run;
    if Logged(s.log, h) {
      LoggedConcat(s.log, run, h);
    } else {
      var v :| 0 <= v < |s.warps| && Holds(s.warps[v], h);
      if v == w {
        HeldGetsLogged(w, warp.tile, warp.kept, h);
        LoggedConcat(s.log, run, h);
      } else {
        assert Holds(s'.warps[v], h);
      }
    }
  }

  lemma ReserveSecure(c: Launch, s: State, step: Step)
    requires Shape(c, s) && Secure(c, s) && Enabled(c, s, step) && step.Reserve?
    ensures Secure(c, Apply(c, s, step))
  {
    NextTileSecure(c, step.w, s.warps[step.w], s.emitted);
    forall h | h in s.emitted ensures Accounted(Apply(c, s, step), h) {
      ReserveAccounts(c, s, step, h);
    }
  }

  lemma WriteSecure(c: Launch, s: State, step: Step)
    requires Shape(c, s) && Secure(c, s) && Enabled(c, s, step) && step.Write?
    ensures Secure(c, Apply(c, s, step))
  {
    var w := step.w;
    var warp := s.warps[w];
    var s' := Apply(c, s, step);
    NextTileSecure(c, w, warp, s.emitted);
    forall h | h in s.emitted ensures Accounted(s', h) {
      if !Logged(s.log, h) {
        var v :| 0 <= v < |s.warps| && Holds(s.warps[v], h);
        assert Holds(s'.warps[v], h);
      }
    }
  }

  // ----- reserved slots: one per emission, none shared -----

  ghost predicate SamePlace(e: Emission, f: Emission) {
    e.warp == f.warp && e.tile == f.tile && e.item == f.item && e.lane == f.lane
  }

  /** A logged emission is the candidate of its place; while its warp is still writing that
      tile it is what the lane's register holds. */
  ghost predicate Genuine(c: Launch, warps: seq<Warp>, e: Emission) {
    && e.warp < |warps| && e.item < ITEMS && e.lane < WARP_WIDTH
    && e.hash != 0 && MayKeep(c, e.warp, e.tile, e.item, e.lane, e.hash)
    && var warp := warps[e.warp];
       && e.tile <= warp.tile
       && (e.tile == warp.tile ==>
             && warp.phase.Writing? && e.item < |warp.kept| && e.lane < |warp.kept[e.item]|
             && e.hash == warp.kept[e.item][e.lane])
  }

  /** The slots a writing warp reserved are, in order, the run of its lanes. */
  ghost predicate RunReserved(w: nat, warp: Warp, log: seq<Emission>) {
    warp.phase.Writing? && Rows(warp.kept) ==>
      && warp.phase.base + Scan(warp.kept, WARP_WIDTH) <= |log|
      && log[warp.phase.base..warp.phase.base + Scan(warp.kept, WARP_WIDTH)]
         == WarpRun(w, warp.tile, warp.kept, WARP_WIDTH)
  }

  ghost predicate Tiled(c: Launch, s: State) {
    && (forall p :: 0 <= p < |s.log| ==> Genuine(c, s.warps, s.log[p]))
    && Distinct(s.log)
    && (forall w :: 0 <= w < |s.warps| ==> RunReserved(w, s.warps[w], s.log))
  }

  ghost predicate Distinct(log: seq<Emission>) {
    forall p, q :: 0 <= p < q < |log| ==> !SamePlace(log[p], log[q])
  }

  lemma DistinctConcat(a: seq<Emission>, b: seq<Emission>)
    requires Distinct(a) && Distinct(b)
    requires forall e, f :: e in a && f in b ==> !SamePlace(e, f)
    ensures Distinct(a + b)
  {
    var ab := a + b;
    assert forall p :: 0 <= p < |a| ==> a[p] in a;
    assert forall q :: 0 <= q < |b| ==> b[q] in b;
    forall p, q | 0 <= p < q < |ab| ensures !SamePlace(ab[p], ab[q]) {
      assert ab[p] == if p < |a| then a[p] else b[p - |a|];
      assert ab[q] == if q < |a| then a[q] else b[q - |a|];
    }
  }

  /** e is what the register of its lane and item holds. */
  ghost predicate FromRegister(w: nat, tile: nat, kept: seq<seq<nat>>, e: Emission) {
    && e.hash != 0 && e.warp == w && e.tile == tile
    && e.item < |kept| && e.lane < WARP_WIDTH && e.lane < |kept[e.item]|
    && e.hash == kept[e.item][e.lane]
  }

  lemma {:induction false} LaneRunEntries(w: nat, tile: nat, kept: seq<seq<nat>>, l: nat, n: nat)
    requires Rows(kept) && l < WARP_WIDTH && n <= |kept|
    ensures var run := LaneRun(w, tile, kept, l, n);
            && Distinct(run)
            && forall e :: e in run ==> FromRegister(w, tile, kept, e) && e.lane == l && e.item < n
  {
    if n == 0 {
      assert LaneRun(w, tile, kept, l, n) == [];
    } else {
      LaneRunEntries(w, tile, kept, l, n - 1);
      var before := LaneRun(w, tile, kept, l, n - 1);
      var last := Emission(kept[n - 1][l], w, tile, n - 1, l);
      DistinctConcat(before, [last]);
      assert LaneRun(w, tile, kept, l, n) == if last.hash != 0 then before + [last] else before;
    }
  }

  /** Entries of a run come from registers, each place at most once. */
  lemma {:induction false} WarpRunEntries(w: nat, tile: nat, kept: seq<seq<nat>>, m: nat)
    requires Rows(kept) && m <= WARP_WIDTH
    ensures EntriesBelow(w, tile, kept, WarpRun(w, tile, kept, m), m)
  {
    if m == 0 {
      assert WarpRun(w, tile, kept, m) == [];
    } else {
      var l := m - 1;
      WarpRunEntries(w, tile, kept, l);
      NextLaneEntries(w, tile, kept, l);
      assert l + 1 == m;
    }
  }

  lemma NextLaneEntries(w: nat, tile: nat, kept: seq<seq<nat>>, l: nat)
    requires Rows(kept) && l < WARP_WIDTH && EntriesBelow(w, tile, kept, WarpRun(w, tile, kept, l), l)
    ensures EntriesBelow(w, tile, kept, WarpRun(w, tile, kept, l + 1), l + 1)
  {
    var lower, lane := WarpRun(w, tile, kept, l), LaneRun(w, tile, kept, l, |kept|);
    assert WarpRun(w, tile, kept, l + 1) == lower + lane;
    LaneRunEntries(w, tile, kept, l, |kept|);
    DistinctConcat(lower, lane);
  }

  ghost predicate EntriesBelow(w: nat, tile: nat, kept: seq<seq<nat>>, run: seq<Emission>, m: nat) {
    Distinct(run) && forall e :: e in run ==> FromRegister(w, tile, kept, e) && e.lane < m
  }

  lemma TiledFrame(c: Launch, s: State, w: nat, warp': Warp, s': State)
    requires Shape(c, s) && Tiled(c, s) && w < |s.warps|
    requires s'.log == s.log && s'.warps == s.warps[w := warp']
    requires s.warps[w].tile <= warp'.tile
    requires s.warps[w].tile == warp'.tile ==>
               if s.warps[w].phase.Writing?
               then warp'.phase.Writing? && warp'.kept == s.warps[w].kept && warp'.phase.base == s.warps[w].phase.base
               else !warp'.phase.Writing?
    requires s.warps[w].tile < warp'.tile ==> !warp'.phase.Writing?
    ensures Tiled(c, s')
  {
    forall p | 0 <= p < |s'.log| ensures Genuine(c, s'.warps, s'.log[p]) {
      assert Genuine(c, s.warps, s.log[p]);
    }
    forall v | 0 <= v < |s'.warps| ensures RunReserved(v, s'.warps[v], s'.log) {
      assert RunReserved(v, s.warps[v], s.log);
    }
  }

  lemma ReserveDistinct(c: Launch, s: State, w: nat, run: seq<Emission>)
    requires Tiled(c, s) && w < |s.warps| && !s.warps[w].phase.Writing?
    requires Distinct(run) && forall e :: e in run ==> e.warp == w && e.tile == s.warps[w].tile
    ensures Distinct(s.log + run)
  {
    forall e, f | e in s.log && f in run ensures !SamePlace(e, f) {
      var p :| 0 <= p < |s.log| && s.log[p] == e;
      assert Genuine(c, s.warps, s.log[p]);
    }
    DistinctConcat(s.log, run);
  }

  lemma ReserveGenuine(c: Launch, s: State, w: nat, warp': Warp, run: seq<Emission>)
    requires Tiled(c, s) && w < |s.warps| && WarpShape(c, w, s.warps[w]) && s.warps[w].phase.Reserving?
    requires warp' == s.warps[w].(phase := warp'.phase) && warp'.phase.Writing?
    requires forall e :: e in run ==> FromRegister(w, warp'.tile, warp'.kept, e)
    ensures forall p :: 0 <= p < |s.log + run| ==> Genuine(c, s.warps[w := warp'], (s.log + run)[p])
  {
    forall p | 0 <= p < |s.log + run| ensures Genuine(c, s.warps[w := warp'], (s.log + run)[p]) {
      if p < |s.log| {
        assert Genuine(c, s.warps, s.log[p]);
      } else {
        assert (s.log + run)[p] in run;
        RunEntryGenuine(c, w, s.warps, s.warps[w := warp'], (s.log + run)[p]);
      }
    }
  }

  lemma ReserveTiled(c: Launch, s: State, step: Step)
    requires Shape(c, s) && Tiled(c, s) && Enabled(c, s, step) && step.Reserve?
    ensures Tiled(c, Apply(c, s, step))
  {
    var w := step.w;
    var warp := s.warps[w];
    var s' := Apply(c, s, step);
    var run := WarpRun(w, warp.tile, warp.kept, WARP_WIDTH);
    WarpRunEntries(w, warp.tile, warp.kept, WARP_WIDTH);
    if run == [] {
      TiledFrame(c, s, w, NextTile(warp), s');
    } else {
      ReserveDistinct(c, s, w, run);
      ReserveGenuine(c, s, w, s'.warps[w], run);
      ReserveRuns(s, w, s'.warps[w], run);
    }
  }

  lemma ReserveRuns(s: State, w: nat, warp': Warp, run: seq<Emission>)
    requires w < |s.warps| && forall v :: 0 <= v < |s.warps| ==> RunReserved(v, s.warps[v], s.log)
    requires warp'.phase.Writing? && warp'.phase.base == |s.log|
    requires Rows(warp'.kept) && run == WarpRun(w, warp'.tile, warp'.kept, WARP_WIDTH)
    ensures var warps := s.warps[w := warp'];
            forall v :: 0 <= v < |warps| ==> RunReserved(v, warps[v], s.log + run)
  {
    var warps := s.warps[w := warp'];
    forall v | 0 <= v < |warps| ensures RunReserved(v, warps[v], s.log + run) {
      if v != w {
        RunStaysReserved(v, s.warps[v], s.log, run);
      }
    }
  }

  lemma RunEntryGenuine(c: Launch, w: nat, warps: seq<Warp>, warps': seq<Warp>, e: Emission)
    requires w < |warps| == |warps'| && WarpShape(c, w, warps[w])
    requires FromRegister(w, warps[w].tile, warps[w].kept, e)
    requires warps'[w].tile == warps[w].tile && warps'[w].kept == warps[w].kept && warps'[w].phase.Writing?
    ensures Genuine(c, warps', e)
  {}

  lemma RunStaysReserved(w: nat, warp: Warp, log: seq<Emission>, more: seq<Emission>)
    requires RunReserved(w, warp, log)
    ensures RunReserved(w, warp, log + more)
  {
    if warp.phase.Writing? && Rows(warp.kept) {
      var lo, hi := warp.phase.base, warp.phase.base + Scan(warp.kept, WARP_WIDTH);
      assert (log + more)[lo..hi] == log[lo..hi];
    }
  }

  lemma TiledKept(c: Launch, s: State, step: Step)
    requires Shape(c, s) && Tiled(c, s) && Enabled(c, s, step)
    ensures Tiled(c, Apply(c, s, step))
  {
    if step.Reserve? {
      ReserveTiled(c, s, step);
    } else {
      var s' := Apply(c, s, step);
      TiledFrame(c, s, step.w, s'.warps[step.w], s');
    }
  }

  // ----- output slots are written exactly once -----

  /** The lane that emits e has not come to e's item yet. */
  ghost predicate Awaiting(warps: seq<Warp>, e: Emission) {
    && e.warp < |warps| && e.tile == warps[e.warp].tile
    && warps[e.warp].phase.Writing?
    && e.lane < |warps[e.warp].phase.next| && warps[e.warp].phase.next[e.lane] <= e.item
  }

  /** A slot is written once its lane has passed its item, and never touched otherwise. */
  ghost predicate SlotOk(s: State, p: nat) {
    p < |s.out| ==>
      s.out[p] == if p >= |s.log| || Awaiting(s.warps, s.log[p]) then Unwritten else Written(s.log[p].hash)
  }

  ghost predicate OutputOk(s: State) {
    forall p: nat :: SlotOk(s, p)
  }

  lemma ReservedAt(w: nat, warp: Warp, log: seq<Emission>, l: nat, i: nat)
    requires RunReserved(w, warp, log) && warp.phase.Writing? && Rows(warp.kept)
    requires l < WARP_WIDTH && i < |warp.kept| && warp.kept[i][l] != 0
    ensures var p := warp.phase.base + Scan(warp.kept, l) + Mine(warp.kept, l, i);
            p < |log| && log[p] == Emission(warp.kept[i][l], w, warp.tile, i, l)
  {
    RunAt(w, warp.tile, warp.kept, WARP_WIDTH, l, i);
    SliceAt(log, warp.phase.base, WarpRun(w, warp.tile, warp.kept, WARP_WIDTH),
            Scan(warp.kept, l) + Mine(warp.kept, l, i));
  }

  lemma SliceAt(log: seq<Emission>, base: nat, run: seq<Emission>, at: nat)
    requires base + |run| <= |log| && log[base..base + |run|] == run && at < |run|
    ensures log[base + at] == run[at]
  {}

  lemma CursorReserved(w: nat, warp: Warp, log: seq<Emission>, l: nat)
    requires Turn(warp, l) && CursorsPlaced(warp) && RunReserved(w, warp, log) && Register(warp, l) != 0
    ensures var p := warp.phase.cursors[l];
            p < |log| && log[p] == Emission(Register(warp, l), w, warp.tile, warp.phase.next[l], l)
  {
    ReservedAt(w, warp, log, l, warp.phase.next[l]);
  }

  /** The cursor of a lane about to write points at the slot reserved for that very item. */
  lemma CursorAt(c: Launch, s: State, step: Step)
    requires Shape(c, s) && Tiled(c, s) && Enabled(c, s, step) && step.Write?
    ensures var warp := s.warps[step.w];
            var i := warp.phase.next[step.lane];
            var p := warp.phase.cursors[step.lane];
            warp.kept[i][step.lane] != 0 ==>
              p < |s.log| && s.log[p] == Emission(warp.kept[i][step.lane], step.w, warp.tile, i, step.lane)
  {
    var warp := s.warps[step.w];
    if Register(warp, step.lane) != 0 {
      CursorReserved(step.w, warp, s.log, step.lane);
    }
  }

  ghost predicate SameItem(e: Emission, f: Emission) {
    e.warp == f.warp && e.tile == f.tile && e.item == f.item
  }

  /** A warp emits a hash at most once for each of its items, however many lanes have it. */
  lemma OncePerItem(c: Launch, s: State, p: nat, q: nat)
    requires Shape(c, s) && Tiled(c, s) && p < q < |s.log|
    ensures SameItem(s.log[p], s.log[q]) ==> s.log[p].hash != s.log[q].hash
  {
    var e, f := s.log[p], s.log[q];
    assert Genuine(c, s.warps, e) && Genuine(c, s.warps, f) && !SamePlace(e, f);
  }

  /** No write ever lands on a slot that has been written before. */
  lemma WriteIsFresh(c: Launch, s: State, step: Step)
    requires Shape(c, s) && Tiled(c, s) && OutputOk(s) && Enabled(c, s, step) && step.Write?
    ensures var warp := s.warps[step.w];
            var p := warp.phase.cursors[step.lane];
            warp.kept[warp.phase.next[step.lane]][step.lane] != 0 && p < c.capacity ==> s.out[p] == Unwritten
  {
    CursorAt(c, s, step);
    assert SlotOk(s, s.warps[step.w].phase.cursors[step.lane]);
  }

  /** A write step is the turn of exactly one place. */
  lemma WriteTakesTurn(c: Launch, s: State, step: Step, e: Emission)
    requires Shape(c, s) && Enabled(c, s, step) && step.Write?
    requires Genuine(c, s.warps, e)
    ensures var turn := IsTurn(s.warps, step.w, step.lane, e);
            && (turn ==> e.hash == Register(s.warps[step.w], step.lane))
            && (Awaiting(Apply(c, s, step).warps, e) <==> Awaiting(s.warps, e) && !turn)
  {
    TurnTaken(s.warps, step.w, step.lane, e);
  }

  ghost predicate IsTurn(warps: seq<Warp>, w: nat, l: nat, e: Emission)
    requires w < |warps| && Turn(warps[w], l)
  {
    e.warp == w && e.tile == warps[w].tile && e.lane == l && e.item == warps[w].phase.next[l]
  }

  lemma TurnTaken(warps: seq<Warp>, w: nat, l: nat, e: Emission)
    requires w < |warps| && Turn(warps[w], l) && |warps[w].kept| == ITEMS
    requires e.item < ITEMS && e.lane < WARP_WIDTH
    ensures Awaiting(warps[w := AfterWrite(warps[w], l)], e) <==> Awaiting(warps, e) && !IsTurn(warps, w, l, e)
  {
    var next := warps[w].phase.next;
    var next' := next[l := next[l] + 1];
    if AllWritten(next') && e.warp == w {
      assert next'[e.lane] == ITEMS;
    }
  }

  lemma WriteSlot(c: Launch, s: State, step: Step, p: nat)
    requires Shape(c, s) && Tiled(c, s) && OutputOk(s) && Enabled(c, s, step) && step.Write?
    ensures SlotOk(Apply(c, s, step), p)
  {
    CursorAt(c, s, step);
    assert SlotOk(s, p);
    if p < |s.log| {
      assert Genuine(c, s.warps, s.log[p]);
      WriteTakesTurn(c, s, step, s.log[p]);
      var q := s.warps[step.w].phase.cursors[step.lane];
      if q < |s.log| && p != q {
        assert !SamePlace(s.log[p], s.log[q]);
      }
    }
  }

  lemma WriteOutput(c: Launch, s: State, step: Step)
    requires Shape(c, s) && Tiled(c, s) && OutputOk(s) && Enabled(c, s, step) && step.Write?
    ensures OutputOk(Apply(c, s, step))
  {
    forall p: nat ensures SlotOk(Apply(c, s, step), p) {
      WriteSlot(c, s, step, p);
    }
  }

  lemma ReserveOutput(c: Launch, s: State, step: Step)
    requires Shape(c, s) && Tiled(c, s) && OutputOk(s) && Enabled(c, s, step) && step.Reserve?
    ensures OutputOk(Apply(c, s, step))
  {
    forall p: nat ensures SlotOk(Apply(c, s, step), p) {
      ReserveSlot(c, s, step, p);
    }
  }

  lemma ReserveSlot(c: Launch, s: State, step: Step, p: nat)
    requires Shape(c, s) && Tiled(c, s) && SlotOk(s, p) && Enabled(c, s, step) && step.Reserve?
    ensures SlotOk(Apply(c, s, step), p)
  {
    var w := step.w;
    var warp := s.warps[w];
    var s' := Apply(c, s, step);
    WarpRunEntries(w, warp.tile, warp.kept, WARP_WIDTH);
    if p < |s.log| {
      assert Genuine(c, s.warps, s.log[p]);
      assert s'.log[p] == s.log[p];
    } else if p < |s'.log| {
      assert s'.log[p] in WarpRun(w, warp.tile, warp.kept, WARP_WIDTH);
    }
  }

  lemma LaneOutput(c: Launch, s: State, step: Step)
    requires Shape(c, s) && Tiled(c, s) && OutputOk(s) && Enabled(c, s, step) && (step.Load? || step.Store?)
    ensures OutputOk(Apply(c, s, step))
  {
    OutputFrame(s, step.w, Apply(c, s, step));
  }

  /** A warp that is not writing has no slot that awaits it. */
  lemma OutputFrame(s: State, w: nat, s': State)
    requires OutputOk(s) && w < |s.warps| == |s'.warps|
    requires s'.warps == s.warps[w := s'.warps[w]] && s'.log == s.log && s'.out == s.out
    requires !s.warps[w].phase.Writing? && !s'.warps[w].phase.Writing?
    ensures OutputOk(s')
  {
    forall p: nat ensures SlotOk(s', p) {
      assert SlotOk(s, p);
      if p < |s.log| {
        assert Awaiting(s'.warps, s.log[p]) <==> Awaiting(s.warps, s.log[p]);
      }
    }
  }

  // ----- every run -----

  ghost predicate Invariant(c: Launch, s: State) {
    Shape(c, s) && Secure(c, s) && Tiled(c, s) && OutputOk(s)
  }

  lemma StartInvariant(c: Launch)
    ensures Invariant(c, Start(c))
  {
    StartShape(c);
    assert Idle()[0] == Waiting;
  }

  lemma SecureKept(c: Launch, s: State, step: Step)
    requires Shape(c, s) && Secure(c, s) && Enabled(c, s, step)
    ensures Secure(c, Apply(c, s, step))
  {
    match step
    case Load(_, _, _) => LoadSecure(c, s, step);
    case Store(_, _) => StoreSecure(c, s, step);
    case Reserve(_) => ReserveSecure(c, s, step);
    case Write(_, _) => WriteSecure(c, s, step);
  }

  lemma OutputKept(c: Launch, s: State, step: Step)
    requires Shape(c, s) && Tiled(c, s) && OutputOk(s) && Enabled(c, s, step)
    ensures OutputOk(Apply(c, s, step))
  {
    match step
    case Reserve(_) => ReserveOutput(c, s, step);
    case Write(_, _) => WriteOutput(c, s, step);
    case _ => LaneOutput(c, s, step);
  }

  /** Every step of every warp and lane keeps the invariant. */
  lemma InvariantKept(c: Launch, s: State, step: Step)
    requires Invariant(c, s) && Enabled(c, s, step)
    ensures Invariant(c, Apply(c, s, step))
  {
    ShapeKept(c, s, step);
    SecureKept(c, s, step);
    TiledKept(c, s, step);
    OutputKept(c, s, step);
  }

  /** The indices of the keys that survive the screen. */
  function Survivors(hashes: seq<nat>, theta: nat): set<nat> {
    set i: nat | i < |hashes| && 0 < hashes[i] < theta
  }

  lemma SurvivorsBounded(hashes: seq<nat>, theta: nat)
    ensures |Survivors(hashes, theta)| <= |hashes|
  {
    var n := |hashes|;
    if n > 0 {
      SubsetSize(Survivors(hashes, theta), Initial(n - 1) + {0});
    }
  }

  /** `emissions` is what the kernel emitted, in slot order: every surviving hash, and at most
      one emission for each surviving key. */
  ghost predicate Emits(c: Launch, emissions: seq<nat>, count: nat, out: seq<Slot>) {
    && |emissions| == count <= |Survivors(c.hashes, c.theta)|
    && Elements(emissions) == Below(Elements(c.hashes), c.theta)
    && |out| == c.capacity
    && forall p :: 0 <= p < |out| ==> out[p] == if p < count then Written(emissions[p]) else Unwritten
  }

  function Hashes(log: seq<Emission>): seq<nat> {
    seq(|log|, p requires 0 <= p < |log| => log[p].hash)
  }

  /** When the last warp has exited, the emitted hashes are exactly the surviving ones, the
      count is the number of emissions, and the output holds them without gap or overlap. */
  lemma FinalState(c: Launch, s: State)
    requires c.grid > 0 && Invariant(c, s) && Done(c, s)
    ensures Emits(c, Hashes(s.log), s.count, s.out)
  {
    EmittedSet(c, s);
    forall p: nat | p < |s.out| ensures s.out[p] == if p < s.count then Written(Hashes(s.log)[p]) else Unwritten {
      SlotFinal(c, s, p);
    }
    EmissionsBounded(c, s);
  }

  lemma EmittedSet(c: Launch, s: State)
    requires c.grid > 0 && Shape(c, s) && Secure(c, s) && Tiled(c, s) && Done(c, s)
    ensures Elements(Hashes(s.log)) == Below(Elements(c.hashes), c.theta)
  {
    forall h | h in Elements(Hashes(s.log)) ensures h in Below(Elements(c.hashes), c.theta) {
      var p :| 0 <= p < |s.log| && s.log[p].hash == h;
      assert Genuine(c, s.warps, s.log[p]);
    }
    forall h | h in Below(Elements(c.hashes), c.theta) ensures h in Elements(Hashes(s.log)) {
      var i: nat :| i < |c.hashes| && c.hashes[i] == h;
      KeyEmitted(c, s, i);
      var p :| 0 <= p < |s.log| && s.log[p].hash == h;
      assert Hashes(s.log)[p] == h;
    }
  }

  lemma SlotFinal(c: Launch, s: State, p: nat)
    requires Shape(c, s) && Tiled(c, s) && OutputOk(s) && Done(c, s) && p < |s.out|
    ensures s.out[p] == if p < |s.log| then Written(s.log[p].hash) else Unwritten
  {
    assert SlotOk(s, p);
    if p < |s.log| {
      assert Genuine(c, s.warps, s.log[p]);
      assert WarpShape(c, s.log[p].warp, s.warps[s.log[p].warp]);
    }
  }

  /** Each key that survives the screen has its hash in the log at the end. */
  lemma KeyEmitted(c: Launch, s: State, i: nat)
    requires c.grid > 0 && Shape(c, s) && Secure(c, s) && Done(c, s)
    requires i < |c.hashes| && 0 < c.hashes[i] < c.theta
    ensures Logged(s.log, c.hashes[i])
  {
    IndexOwned(c, i);
    var w, tile := OwnerWarp(c, i), OwnerTile(c, i);
    if s.warps[w].tile <= tile {
      BaseMonotone(c, w, s.warps[w].tile, tile);
      assert false;
    }
    assert WarpSecure(c, w, s.warps[w], s.emitted);
    assert Covered(c, s.emitted, w, tile, OwnerItem(i), OwnerLane(i));
    assert Accounted(s, c.hashes[i]);
    forall v | 0 <= v < |s.warps| ensures !Holds(s.warps[v], c.hashes[i]) {
      assert WarpShape(c, v, s.warps[v]);
    }
  }

  /** Emissions come from different keys that survive, so there are at most as many. */
  lemma EmissionsBounded(c: Launch, s: State)
    requires c.grid > 0 && Shape(c, s) && Tiled(c, s)
    ensures |s.log| <= |Survivors(c.hashes, c.theta)|
  {
    var indices := seq(|s.log|, p requires 0 <= p < |s.log| =>
      var e := s.log[p]; Index(c, e.warp, e.tile, e.item, e.lane));
    forall p | 0 <= p < |s.log| ensures indices[p] in Survivors(c.hashes, c.theta) {
      assert Genuine(c, s.warps, s.log[p]);
    }
    forall p, q | 0 <= p < q < |s.log| ensures indices[p] != indices[q] {
      var e, f := s.log[p], s.log[q];
      assert Genuine(c, s.warps, e) && Genuine(c, s.warps, f) && !SamePlace(e, f);
      IndexParts(c, e.warp, e.tile, e.item, e.lane);
      IndexParts(c, f.warp, f.tile, f.item, f.lane);
    }
    Pigeonhole(indices, Survivors(c.hashes, c.theta));
  }

  lemma Pigeonhole(s: seq<nat>, holes: set<nat>)
    requires forall p :: 0 <= p < |s| ==> s[p] in holes
    requires forall p, q :: 0 <= p < q < |s| ==> s[p] != s[q]
    ensures |s| <= |holes|
  {
    DistinctSize(s);
    SubsetSize(Elements(s), holes);
  }

  lemma {:induction false} DistinctSize(s: seq<nat>)
    requires forall p, q :: 0 <= p < q < |s| ==> s[p] != s[q]
    ensures |Elements(s)| == |s|
  {
    if s != [] {
      var n := |s| - 1;
      DistinctSize(s[..n]);
      assert Elements(s) == Elements(s[..n]) + {s[n]};
    }
  }

  // ----- termination -----

  ghost function LaneProgress(lanes: seq<Lane>): nat {
    if lanes == [] then 0
    else LaneProgress(lanes[1..]) + match lanes[0] case Waiting => 0 case Loaded(_) => 1 case Settled(_) => 2
  }

  ghost function Sum(next: seq<nat>): nat {
    if next == [] then 0 else next[0] + Sum(next[1..])
  }

  const TILE_WORK: nat := 1000

  ghost function Progress(warp: Warp): nat {
    match warp.phase
    case Filtering(lanes) => |warp.kept| * 65 + LaneProgress(lanes)
    case Reserving => ITEMS * 65
    case Writing(_, next, _) => ITEMS * 65 + 1 + Sum(next)
  }

  /** An upper bound on the steps the warp can still take. */
  ghost function WarpWork(c: Launch, w: nat, warp: Warp): int {
    if Exited(c, w, warp.tile) then 0
    else (|c.hashes| - Base(c, w, warp.tile)) * TILE_WORK - Progress(warp)
  }

  ghost function Work(c: Launch, warps: seq<Warp>): int {
    if warps == [] then 0 else Work(c, warps[..|warps| - 1]) + WarpWork(c, |warps| - 1, warps[|warps| - 1])
  }

  lemma {:induction false} LaneProgressMoves(lanes: seq<Lane>, l: nat, lane: Lane)
    requires l < |lanes|
    requires (lanes[l].Waiting? && !lane.Waiting?) || (lanes[l].Loaded? && lane.Settled?)
    ensures LaneProgress(lanes[l := lane]) > LaneProgress(lanes)
  {
    var lanes' := lanes[l := lane];
    if l > 0 {
      LaneProgressMoves(lanes[1..], l - 1, lane);
      assert lanes'[1..] == lanes[1..][l - 1 := lane];
    } else {
      assert lanes'[1..] == lanes[1..];
    }
  }

  lemma {:induction false} LaneProgressBound(lanes: seq<Lane>)
    ensures LaneProgress(lanes) <= 2 * |lanes|
  {
    if lanes != [] {
      LaneProgressBound(lanes[1..]);
    }
  }

  lemma {:induction false} SumMoves(next: seq<nat>, l: nat)
    requires l < |next|
    ensures Sum(next[l := next[l] + 1]) == Sum(next) + 1
  {
    var next' := next[l := next[l] + 1];
    if l > 0 {
      SumMoves(next[1..], l - 1);
      assert next'[1..] == next[1..][l - 1 := next[l] + 1];
    } else {
      assert next'[1..] == next[1..];
    }
  }

  lemma {:induction false} SumBound(next: seq<nat>)
    requires forall l :: 0 <= l < |next| ==> next[l] <= ITEMS
    ensures Sum(next) <= ITEMS * |next|
  {
    if next != [] {
      SumBound(next[1..]);
    }
  }

  lemma ProgressBound(c: Launch, w: nat, warp: Warp)
    requires WarpShape(c, w, warp)
    ensures Progress(warp) < TILE_WORK
    ensures WarpWork(c, w, warp) >= 0
  {
    match warp.phase
    case Filtering(lanes) => LaneProgressBound(lanes);
    case Reserving =>
    case Writing(_, next, _) => SumBound(next);
  }

  lemma LaneMoves(warp: Warp, l: nat, lane: Lane)
    requires warp.phase.Filtering? && l < |warp.phase.lanes| == WARP_WIDTH && |warp.kept| < ITEMS
    requires (warp.phase.lanes[l].Waiting? && !lane.Waiting?) || (warp.phase.lanes[l].Loaded? && lane.Settled?)
    ensures var warp' := AfterLane(warp, warp.phase.lanes[l := lane]);
            warp'.tile == warp.tile && Progress(warp') > Progress(warp)
  {
    LaneProgressMoves(warp.phase.lanes, l, lane);
    LaneProgressBound(warp.phase.lanes);
  }

  ghost predicate Forward(warp: Warp, warp': Warp) {
    warp'.tile == warp.tile + 1 || (warp'.tile == warp.tile && Progress(warp') > Progress(warp))
  }

  lemma FilterMoves(c: Launch, s: State, step: Step)
    requires Shape(c, s) && Enabled(c, s, step) && (step.Load? || step.Store?)
    ensures Forward(s.warps[step.w], Apply(c, s, step).warps[step.w])
  {
    var w, l := step.w, step.lane;
    var warp := s.warps[w];
    var h := Candidate(c, w, warp.tile, |warp.kept|, l);
    assert WarpShape(c, w, warp);
    var lane :=
      if step.Load? then if Leader(c, w, warp.tile, |warp.kept|, l) then Loaded(step.value) else Settled(0)
      else Settled(if warp.phase.lanes[l].value == h then 0 else h);
    LaneMoves(warp, l, lane);
  }

  lemma AfterWriteMoves(warp: Warp, l: nat)
    requires Turn(warp, l)
    ensures Forward(warp, AfterWrite(warp, l))
  {
    SumMoves(warp.phase.next, l);
  }

  /** A step brings its warp forward within the tile or takes it to the next one. */
  lemma StepMoves(c: Launch, s: State, step: Step)
    requires Shape(c, s) && Enabled(c, s, step)
    ensures Forward(s.warps[step.w], Apply(c, s, step).warps[step.w])
  {
    match step
    case Reserve(_) =>
    case Write(w, l) => AfterWriteMoves(s.warps[w], l);
    case _ => FilterMoves(c, s, step);
  }

  lemma StepWorks(c: Launch, s: State, step: Step)
    requires Shape(c, s) && Enabled(c, s, step)
    ensures WarpWork(c, step.w, Apply(c, s, step).warps[step.w]) < WarpWork(c, step.w, s.warps[step.w])
  {
    StepMoves(c, s, step);
    ForwardWorks(c, step.w, s.warps[step.w], Apply(c, s, step).warps[step.w]);
  }

  lemma ForwardWorks(c: Launch, w: nat, warp: Warp, warp': Warp)
    requires c.grid > 0 && WarpShape(c, w, warp) && !Exited(c, w, warp.tile) && Forward(warp, warp')
    ensures WarpWork(c, w, warp') < WarpWork(c, w, warp)
  {
    ProgressBound(c, w, warp);
    BaseMonotone(c, w, warp.tile, warp.tile + 1);
  }

  lemma {:induction false} WorkFalls(c: Launch, warps: seq<Warp>, w: nat, warp: Warp)
    requires w < |warps| && WarpWork(c, w, warp) < WarpWork(c, w, warps[w])
    ensures Work(c, warps[w := warp]) < Work(c, warps)
  {
    var n := |warps| - 1;
    var warps' := warps[w := warp];
    if w < n {
      WorkFalls(c, warps[..n], w, warp);
      assert warps'[..n] == warps[..n][w := warp];
    } else {
      assert warps'[..n] == warps[..n];
    }
  }

  lemma {:induction false} WorkNonNegative(c: Launch, warps: seq<Warp>)
    requires forall w :: 0 <= w < |warps| ==> WarpShape(c, w, warps[w])
    ensures Work(c, warps) >= 0
  {
    if warps != [] {
      var n := |warps| - 1;
      ProgressBound(c, n, warps[n]);
      WorkNonNegative(c, warps[..n]);
    }
  }

  lemma WorkDecreases(c: Launch, s: State, step: Step)
    requires Shape(c, s) && Enabled(c, s, step)
    ensures 0 <= Work(c, Apply(c, s, step).warps) < Work(c, s.warps)
  {
    var s' := Apply(c, s, step);
    StepWorks(c, s, step);
    WorkFalls(c, s.warps, step.w, s'.warps[step.w]);
    ShapeKept(c, s, step);
    WorkNonNegative(c, s'.warps);
  }

  /** Until every warp has exited some step can be taken. */
  lemma NoDeadlock(c: Launch, s: State) returns (step: Step)
    requires Shape(c, s) && !Done(c, s)
    ensures Enabled(c, s, step)
  {
    var w :| 0 <= w < |s.warps| && !Exited(c, w, s.warps[w].tile);
    var warp := s.warps[w];
    match warp.phase
    case Filtering(lanes) =>
      var l: nat :| l < WARP_WIDTH && !lanes[l].Settled?;
      step := if lanes[l].Waiting? then Load(w, l, 0) else Store(w, l);
    case Reserving =>
      step := Reserve(w);
    case Writing(_, next, _) =>
      var l: nat :| l < WARP_WIDTH && next[l] != ITEMS;
      step := Write(w, l);
  }

  ghost predicate Runs(c: Launch, s: State, steps: seq<Step>, t: State)
    decreases |steps|
  {
    if steps == [] then s == t
    else Shape(c, s) && Enabled(c, s, steps[0]) && Runs(c, Apply(c, s, steps[0]), steps[1..], t)
  }

  /** In every interleaving, with every choice of stale filter values: the run is finite; it
      can always go on until every warp has exited; and then it has emitted exactly the
      surviving hashes into consecutive slots. */
  lemma EveryRun(c: Launch, steps: seq<Step>, t: State)
    requires c.grid > 0 && Runs(c, Start(c), steps, t)
    ensures |steps| <= Work(c, Start(c).warps)
    ensures Shape(c, t)
    ensures Done(c, t) ==> Emits(c, Hashes(t.log), t.count, t.out)
    ensures !Done(c, t) ==> exists step :: Enabled(c, t, step)
    ensures forall p, q :: 0 <= p < q < |t.log| && SameItem(t.log[p], t.log[q]) ==> t.log[p].hash != t.log[q].hash
  {
    StartInvariant(c);
    RunInvariant(c, Start(c), steps, t);
    forall p, q | 0 <= p < q < |t.log| && SameItem(t.log[p], t.log[q]) ensures t.log[p].hash != t.log[q].hash {
      OncePerItem(c, t, p, q);
    }
    if Done(c, t) {
      FinalState(c, t);
    } else {
      var step := NoDeadlock(c, t);
    }
  }

  lemma {:induction false} RunInvariant(c: Launch, s: State, steps: seq<Step>, t: State)
    requires Invariant(c, s) && Runs(c, s, steps, t)
    ensures Invariant(c, t)
    ensures |steps| <= Work(c, s.warps)
    decreases |steps|
  {
    WorkNonNegative(c, s.warps);
    if steps != [] {
      InvariantKept(c, s, steps[0]);
      WorkDecreases(c, s, steps[0]);
      RunInvariant(c, Apply(c, s, steps[0]), steps[1..], t);
    }
  }
}
