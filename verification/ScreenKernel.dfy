/** The screening kernel as a step system.

    Blocks of eight warps hash, screen, deduplicate and compact a batch of keys. Warps
    interleave arbitrarily, and so do the lanes of a warp between the two points where the
    hardware makes them meet (the match on the hash and the scan before the reservation).
    A relaxed load of a filter cell may return any value ever stored in that cell, or the
    zero it was initialised with. The output counter is an atomic fetch-and-add. */
module ScreenKernel {
  const WARP_WIDTH: nat := 32
  const BLOCK_THREADS: nat := 256
  const WARPS_PER_BLOCK: nat := 8
  const ITEMS: nat := 8
  const FILTER_SLOTS: nat := 1024
  const TILE_KEYS: nat := 2048

  /** `hashes[i]` is the hash of key i; the grid has at least one block. */
  datatype Launch = Launch(hashes: seq<nat>, theta: nat, capacity: nat, grid: nat)

  // ----- which key a lane looks at -----

  function Base(c: Launch, w: nat, tile: nat): nat {
    (w / WARPS_PER_BLOCK + tile * c.grid) * TILE_KEYS
  }

  function Index(c: Launch, w: nat, tile: nat, item: nat, lane: nat): nat {
    Base(c, w, tile) + item * BLOCK_THREADS + w % WARPS_PER_BLOCK * WARP_WIDTH + lane
  }

  /** The hash a lane matches on: zero unless its key exists and survives the screen. */
  function Candidate(c: Launch, w: nat, tile: nat, item: nat, lane: nat): nat {
    var i := Index(c, w, tile, item, lane);
    if i < |c.hashes| && 0 < c.hashes[i] < c.theta then c.hashes[i] else 0
  }

  /** One lane per distinct surviving hash of the warp continues: the lowest. */
  predicate Leader(c: Launch, w: nat, tile: nat, item: nat, lane: nat) {
    && Candidate(c, w, tile, item, lane) != 0
    && forall l: nat :: l < lane ==> Candidate(c, w, tile, item, l) != Candidate(c, w, tile, item, lane)
  }

  // ----- state -----

  /** A lane within one item: before its filter load, between load and store, done. */
  datatype Lane = Waiting | Loaded(value: nat) | Settled(hash: nat)

  datatype Phase =
    | Filtering(lanes: seq<Lane>)
    | Reserving
    | Writing(base: nat, next: seq<nat>, cursors: seq<nat>)

  /** `kept[i][l]` is lane l's register for item i, zero if it has nothing to emit. */
  datatype Warp = Warp(tile: nat, kept: seq<seq<nat>>, phase: Phase)

  datatype Slot = Unwritten | Written(hash: nat)

  datatype Emission = Emission(hash: nat, warp: nat, tile: nat, item: nat, lane: nat)

  /** `filter[b][i]` is every value ever stored in cell i of block b. `log` and `emitted` are
      history: the reserved slots in counter order, and every hash some lane let through. */
  datatype State = State(
    filter: seq<seq<set<nat>>>, warps: seq<Warp>, count: nat, out: seq<Slot>,
    log: seq<Emission>, emitted: set<nat>)

  datatype Step =
    | Load(w: nat, lane: nat, value: nat)
    | Store(w: nat, lane: nat)
    | Reserve(w: nat)
    | Write(w: nat, lane: nat)

  function Idle(): seq<Lane> {
    seq(WARP_WIDTH, _ => Waiting)
  }

  function Start(c: Launch): State {
    State(
      seq(c.grid, _ => seq(FILTER_SLOTS, _ => {0})),
      seq(c.grid * WARPS_PER_BLOCK, _ => Warp(0, [], Filtering(Idle()))),
      0, seq(c.capacity, _ => Unwritten), [], {})
  }

  predicate Exited(c: Launch, w: nat, tile: nat) {
    Base(c, w, tile) >= |c.hashes|
  }

  predicate Done(c: Launch, s: State) {
    forall w :: 0 <= w < |s.warps| ==> Exited(c, w, s.warps[w].tile)
  }

  // ----- counting a lane's and a warp's emissions -----

  predicate Rows(kept: seq<seq<nat>>) {
    forall i :: 0 <= i < |kept| ==> |kept[i]| == WARP_WIDTH
  }

  /** How many of lane l's first i items are to be emitted. */
  function Mine(kept: seq<seq<nat>>, l: nat, i: nat): nat
    requires Rows(kept) && l < WARP_WIDTH && i <= |kept|
  {
    if i == 0 then 0 else Mine(kept, l, i - 1) + if kept[i - 1][l] != 0 then 1 else 0
  }

  /** The exclusive prefix sum of the lanes' totals. */
  function Scan(kept: seq<seq<nat>>, l: nat): nat
    requires Rows(kept) && l <= WARP_WIDTH
  {
    if l == 0 then 0 else Scan(kept, l - 1) + Mine(kept, l - 1, |kept|)
  }

  function LaneRun(w: nat, tile: nat, kept: seq<seq<nat>>, l: nat, i: nat): (run: seq<Emission>)
    requires Rows(kept) && l < WARP_WIDTH && i <= |kept|
    ensures |run| == Mine(kept, l, i)
  {
    if i == 0 then []
    else
      LaneRun(w, tile, kept, l, i - 1) +
      if kept[i - 1][l] != 0 then [Emission(kept[i - 1][l], w, tile, i - 1, l)] else []
  }

  /** What the first l lanes of a warp emit, in output order. */
  function WarpRun(w: nat, tile: nat, kept: seq<seq<nat>>, l: nat): (run: seq<Emission>)
    requires Rows(kept) && l <= WARP_WIDTH
    ensures |run| == Scan(kept, l)
  {
    if l == 0 then [] else WarpRun(w, tile, kept, l - 1) + LaneRun(w, tile, kept, l - 1, |kept|)
  }

  // ----- steps -----

  predicate AllSettled(lanes: seq<Lane>) {
    forall l :: 0 <= l < |lanes| ==> lanes[l].Settled?
  }

  predicate AllWritten(next: seq<nat>) {
    forall l :: 0 <= l < |next| ==> next[l] == ITEMS
  }

  ghost predicate LaneShape(c: Launch, w: nat, warp: Warp, l: nat, lane: Lane) {
    match lane
    case Waiting => true
    case Loaded(_) => Leader(c, w, warp.tile, |warp.kept|, l)
    case Settled(h) => MayKeep(c, w, warp.tile, |warp.kept|, l, h)
  }

  /** What a lane's register can hold: nothing, or its own hash if it leads it. */
  ghost predicate MayKeep(c: Launch, w: nat, tile: nat, item: nat, lane: nat, h: nat) {
    h == 0 || (h == Candidate(c, w, tile, item, lane) && Leader(c, w, tile, item, lane))
  }

  /** Each lane's cursor is at the slot reserved for its next emission. */
  ghost predicate CursorsPlaced(warp: Warp)
    requires warp.phase.Writing? && Rows(warp.kept)
    requires |warp.phase.next| == |warp.phase.cursors| == WARP_WIDTH
  {
    var Writing(base, next, cursors) := warp.phase;
    forall l :: 0 <= l < WARP_WIDTH ==>
      next[l] <= |warp.kept| && cursors[l] == base + Scan(warp.kept, l) + Mine(warp.kept, l, next[l])
  }

  ghost predicate WarpShape(c: Launch, w: nat, warp: Warp) {
    && |warp.kept| <= ITEMS
    && Rows(warp.kept)
    && (forall i, l :: 0 <= i < |warp.kept| && 0 <= l < WARP_WIDTH ==>
          MayKeep(c, w, warp.tile, i, l, warp.kept[i][l]))
    && (Exited(c, w, warp.tile) ==> warp.kept == [] && warp.phase == Filtering(Idle()))
    && match warp.phase
       case Filtering(lanes) =>
         && |warp.kept| < ITEMS && |lanes| == WARP_WIDTH && !AllSettled(lanes)
         && forall l :: 0 <= l < WARP_WIDTH ==> LaneShape(c, w, warp, l, lanes[l])
       case Reserving => |warp.kept| == ITEMS
       case Writing(_, next, cursors) =>
         && |warp.kept| == ITEMS && |next| == |cursors| == WARP_WIDTH && !AllWritten(next)
         && CursorsPlaced(warp)
  }

  ghost predicate FilterShape(c: Launch, filter: seq<seq<set<nat>>>) {
    && |filter| == c.grid
    && (forall b :: 0 <= b < c.grid ==> |filter[b]| == FILTER_SLOTS)
    && (forall b, i :: 0 <= b < c.grid && 0 <= i < FILTER_SLOTS ==> 0 in filter[b][i])
  }

  ghost predicate Shape(c: Launch, s: State) {
    && FilterShape(c, s.filter)
    && |s.warps| == c.grid * WARPS_PER_BLOCK
    && |s.out| == c.capacity
    && s.count == |s.log|
    && forall w :: 0 <= w < |s.warps| ==> WarpShape(c, w, s.warps[w])
  }

  function Cell(c: Launch, s: State, w: nat, lane: nat): set<nat>
    requires Shape(c, s) && w < |s.warps|
  {
    var warp := s.warps[w];
    s.filter[w / WARPS_PER_BLOCK][Candidate(c, w, warp.tile, |warp.kept|, lane) % FILTER_SLOTS]
  }

  predicate Enabled(c: Launch, s: State, step: Step)
    requires Shape(c, s)
  {
    && step.w < |s.warps|
    && var warp := s.warps[step.w];
       && !Exited(c, step.w, warp.tile)
       && match step
          case Load(w, lane, value) =>
            && warp.phase.Filtering? && lane < WARP_WIDTH && warp.phase.lanes[lane].Waiting?
            && (Leader(c, w, warp.tile, |warp.kept|, lane) ==> value in Cell(c, s, w, lane))
          case Store(w, lane) =>
            warp.phase.Filtering? && lane < WARP_WIDTH && warp.phase.lanes[lane].Loaded?
          case Reserve(w) => warp.phase.Reserving?
          case Write(w, lane) =>
            warp.phase.Writing? && lane < WARP_WIDTH && warp.phase.next[lane] < ITEMS
  }

  /** Once every lane has settled its item the warp moves to the next item, or on to the
      reservation after the last one. */
  function AfterLane(warp: Warp, lanes: seq<Lane>): Warp {
    if AllSettled(lanes) then
      var kept := warp.kept + [seq(|lanes|, l requires 0 <= l < |lanes| => lanes[l].hash)];
      Warp(warp.tile, kept, if |kept| == ITEMS then Reserving else Filtering(Idle()))
    else warp.(phase := Filtering(lanes))
  }

  function NextTile(warp: Warp): Warp {
    Warp(warp.tile + 1, [], Filtering(Idle()))
  }

  /** The warp has reserved its run from slot `base` on; each lane's cursor starts at its
      scan offset. */
  function AfterReserve(warp: Warp, base: nat): Warp
    requires Rows(warp.kept)
  {
    var cursors := seq(WARP_WIDTH, l requires 0 <= l < WARP_WIDTH => base + Scan(warp.kept, l));
    warp.(phase := Writing(base, seq(WARP_WIDTH, _ => 0), cursors))
  }

  /** Lane l of a writing warp still has an item to come to. */
  predicate Turn(warp: Warp, l: nat) {
    && warp.phase.Writing? && Rows(warp.kept) && l < WARP_WIDTH
    && |warp.phase.next| == |warp.phase.cursors| == WARP_WIDTH
    && warp.phase.next[l] < |warp.kept|
  }

  function Register(warp: Warp, l: nat): nat
    requires Turn(warp, l)
  {
    warp.kept[warp.phase.next[l]][l]
  }

  /** Lane l passes its item; a hash it has written there moves its cursor. */
  function AfterWrite(warp: Warp, l: nat): Warp
    requires Turn(warp, l)
  {
    var Writing(base, next, cursors) := warp.phase;
    var next' := next[l := next[l] + 1];
    var cursors' := if Register(warp, l) != 0 then cursors[l := cursors[l] + 1] else cursors;
    if AllWritten(next') then NextTile(warp) else warp.(phase := Writing(base, next', cursors'))
  }

  function Apply(c: Launch, s: State, step: Step): State
    requires Shape(c, s) && Enabled(c, s, step)
  {
    var w := step.w;
    var warp := s.warps[w];
    match step
    case Load(_, l, value) =>
      var lane := if Leader(c, w, warp.tile, |warp.kept|, l) then Loaded(value) else Settled(0);
      s.(warps := s.warps[w := AfterLane(warp, warp.phase.lanes[l := lane])])
    case Store(_, l) =>
      var h := Candidate(c, w, warp.tile, |warp.kept|, l);
      if warp.phase.lanes[l].value == h then
        s.(warps := s.warps[w := AfterLane(warp, warp.phase.lanes[l := Settled(0)])])
      else
        var b := w / WARPS_PER_BLOCK;
        var i := h % FILTER_SLOTS;
        s.(filter := s.filter[b := s.filter[b][i := s.filter[b][i] + {h}]],
           warps := s.warps[w := AfterLane(warp, warp.phase.lanes[l := Settled(h)])],
           emitted := s.emitted + {h})
    case Reserve(_) =>
      var total := Scan(warp.kept, WARP_WIDTH);
      if total == 0 then s.(warps := s.warps[w := NextTile(warp)])
      else
        s.(count := s.count + total,
           log := s.log + WarpRun(w, warp.tile, warp.kept, WARP_WIDTH),
           warps := s.warps[w := AfterReserve(warp, s.count)])
    case Write(_, l) =>
      var h, slot := Register(warp, l), warp.phase.cursors[l];
      s.(warps := s.warps[w := AfterWrite(warp, l)],
         out := if h != 0 && slot < c.capacity then s.out[slot := Written(h)] else s.out)
  }
}
