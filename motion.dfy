/**
 * The discrete skeleton of one animation tick, `move()`, and of a whole run
 * of ticks between two presses of the Space key.
 *
 * The float geometry is abstracted: a movement vector is only zero or
 * non-zero, and the distance from a sprite to the node it heads for is a
 * natural number of ticks (distance divided by the walker's speed), taken
 * from an uninterpreted hop-length function of (from, to). Each tick a moving
 * sprite covers one unit; "distance < speed" is "fewer than one unit left".
 */
module Motion {
  import opened Walks
  import opened Helpers

  /**
   * Hop lengths in ticks between two nodes, one function per walker (the two
   * walkers have different speeds, 0.8 / 0.4 in the header and 0.6 / 0.3 in
   * the standalone program).
   */
  datatype Geometry = Geometry(hareHop: (int, int) -> nat, tortoiseHop: (int, int) -> nat)

  /**
   * `get_circle_pos(to) - get_circle_pos(from)` in a layout of `n` nodes:
   * node i sits at angle i * 2π/n (plus a common offset) on a circle of
   * radius `disk_radius` > 0, so two positions coincide exactly when their
   * angles differ by a whole number of turns, that is when n divides
   * to - from. For two nodes of the layout that happens only for equal nodes.
   */
  function Displacement(n: int, from: int, to: int): (d: Vec)
    requires 0 <= from < n && 0 <= to < n
    ensures d == Zero <==> from == to
  {
    if (to - from) % n == 0 then Zero else NonZero
  }

  /** `get_speed(c1, c2, magnitude)`: the direction c1 -> c2 scaled to a speed. */
  function GetSpeed(n: int, c1: int, c2: int): (r: Result<Vec>)
    requires 0 <= c1 < n && 0 <= c2 < n
    ensures r.Ok? <==> c1 != c2
    ensures r.Ok? ==> r.value == NonZero
  {
    ChangeSizeTo(Displacement(n, c1, c2))
  }

  /** The distance, in ticks, from the position of node `from` to that of node `to`. */
  function Gap(hop: (int, int) -> nat, from: int, to: int): (n: nat)
    ensures from == to ==> n == 0
    ensures from != to ==> n == hop(from, to)
  {
    if from == to then 0 else hop(from, to)
  }

  /** One unit of progress towards the target; overshooting leaves nothing. */
  function Shrink(n: nat): (m: nat)
    ensures n > 0 ==> m == n - 1
    ensures n == 0 ==> m == 0
  {
    if n > 0 then n - 1 else 0
  }

  /**
   * The persistent state of `move()`: its function-local statics (the two
   * node indices, the two movement vectors, `hare_first_circle`), the
   * remaining distance of each sprite to the node it heads for, and the
   * object's `moving` flag.
   */
  datatype MoveState = MoveState(
    hareI: int,
    tortoiseI: int,
    hareMovement: Vec,
    tortoiseMovement: Vec,
    hareLeft: nat,
    tortoiseLeft: nat,
    hareFirstCircle: bool,
    moving: bool)

  /** The statics before the first call of `move()`. */
  const Initial := MoveState(0, 0, Zero, Zero, 0, 0, true, false)

  /** Both indices are nodes of a well-formed table. */
  predicate OnGraph(v: seq<int>, s: MoveState) {
    IsTable(v) && 0 <= s.hareI < |v| && 0 <= s.tortoiseI < |v|
  }

  /** Both movement vectors are null: the next tick is a synchronised hop start. */
  predicate BothStopped(s: MoveState) {
    s.hareMovement == Zero && s.tortoiseMovement == Zero
  }

  /** A stopped sprite sits within one tick of the node it headed for. */
  predicate Resting(s: MoveState) {
    (s.hareMovement == Zero ==> s.hareLeft == 0) && (s.tortoiseMovement == Zero ==> s.tortoiseLeft == 0)
  }

  /**
   * One call of `move()`: the synchronised hop start when both walkers are
   * stopped, one tick of sprite movement, the hare's arrival (with its one
   * chained extra hop per run), the tortoise's arrival, and the end-of-run
   * check. Every `get_speed` call is made with two distinct nodes, so the
   * null-vector exception is never raised (`.value` is only defined on Ok).
   */
  function Step(v: seq<int>, g: Geometry, s: MoveState): (r: MoveState)
    requires OnGraph(v, s)
    ensures OnGraph(v, r)
    // Synchronised hop start: both indices take one edge.
    ensures BothStopped(s) ==> r.hareI == v[s.hareI] && r.tortoiseI == v[s.tortoiseI]
    // ... and a walker is under way after that tick exactly when its node is not
    // a self-loop and its hop lasts beyond the tick that starts it.
    ensures BothStopped(s) ==>
      (r.hareMovement != Zero <==> s.hareI != v[s.hareI] && g.hareHop(s.hareI, v[s.hareI]) >= 2)
    ensures BothStopped(s) ==>
      (r.tortoiseMovement != Zero <==> s.tortoiseI != v[s.tortoiseI] && g.tortoiseHop(s.tortoiseI, v[s.tortoiseI]) >= 2)
    // The tortoise changes node only at the synchronised hop start.
    ensures !BothStopped(s) ==> r.tortoiseI == s.tortoiseI
    // Otherwise the hare changes node only by its extra hop, guarded by
    // `hare_first_circle` and a non-self-loop; the hop clears the flag.
    ensures !BothStopped(s) && r.hareI != s.hareI ==>
      s.hareFirstCircle && s.hareI != v[s.hareI] && r.hareI == v[s.hareI]
      && !r.hareFirstCircle && r.hareMovement != Zero
    ensures !BothStopped(s) && r.hareI == s.hareI && !BothStopped(r) ==> r.hareFirstCircle == s.hareFirstCircle
    ensures BothStopped(s) && !BothStopped(r) ==> r.hareFirstCircle == s.hareFirstCircle
    // End of run: both vectors null resets the flag and clears `moving`.
    ensures BothStopped(r) ==> r.hareFirstCircle && !r.moving
    ensures !BothStopped(r) ==> r.moving == s.moving
    // Arrived sprites stay put.
    ensures Resting(s) ==> Resting(r)
    ensures r.hareMovement != Zero ==> r.hareLeft >= 1 || !r.hareFirstCircle
    ensures r.tortoiseMovement != Zero ==> r.tortoiseLeft >= 1
  {
    EndCheck(TortoiseArrival(HareArrival(v, g, Advance(SyncStart(v, g, s)), v[s.hareI])))
  }

  /**
   * The synchronised hop start of `move()`: when both vectors are null each
   * walker takes the edge out of its node, gets a speed unless that edge is
   * a self-loop, and its sprite is put on the node it leaves.
   */
  function SyncStart(v: seq<int>, g: Geometry, s: MoveState): MoveState
    requires OnGraph(v, s)
  {
    var hareNext := v[s.hareI];
    var tortoiseNext := v[s.tortoiseI];
    if BothStopped(s) then
      s.(hareMovement := if s.hareI != hareNext then GetSpeed(|v|, s.hareI, hareNext).value else s.hareMovement,
         tortoiseMovement := if s.tortoiseI != tortoiseNext then GetSpeed(|v|, s.tortoiseI, tortoiseNext).value else s.tortoiseMovement,
         hareLeft := Gap(g.hareHop, s.hareI, hareNext),
         tortoiseLeft := Gap(g.tortoiseHop, s.tortoiseI, tortoiseNext),
         hareI := hareNext,
         tortoiseI := tortoiseNext)
    else s
  }

  /** Both sprites move by their movement vectors. */
  function Advance(s: MoveState): MoveState {
    s.(hareLeft := if s.hareMovement == Zero then s.hareLeft else Shrink(s.hareLeft),
       tortoiseLeft := if s.tortoiseMovement == Zero then s.tortoiseLeft else Shrink(s.tortoiseLeft))
  }

  /**
   * The hare's arrival test. `hareNext` is the successor read at the start of
   * the tick, before the synchronised hop start may have moved the hare.
   */
  function HareArrival(v: seq<int>, g: Geometry, s: MoveState, hareNext: int): MoveState
    requires OnGraph(v, s) && 0 <= hareNext < |v|
  {
    if s.hareLeft == 0 then
      if s.hareFirstCircle && s.hareI != hareNext then
        s.(hareFirstCircle := false,
           hareMovement := GetSpeed(|v|, s.hareI, hareNext).value,
           hareLeft := Gap(g.hareHop, s.hareI, hareNext),
           hareI := hareNext)
      else s.(hareMovement := Zero)
    else s
  }

  /** The tortoise's arrival test. */
  function TortoiseArrival(s: MoveState): MoveState {
    if s.tortoiseLeft == 0 then s.(tortoiseMovement := Zero) else s
  }

  /** The end-of-run check: both vectors null resets the flag and stops the run. */
  function EndCheck(s: MoveState): MoveState {
    if BothStopped(s) then s.(hareFirstCircle := true, moving := false) else s
  }

  /** If both walkers sit on self-loops, a run is one tick that changes no index. */
  lemma SelfLoopsEndRunAtOnce(v: seq<int>, g: Geometry, s: MoveState)
    requires OnGraph(v, s) && BothStopped(s)
    requires v[s.hareI] == s.hareI && v[s.tortoiseI] == s.tortoiseI
    ensures Step(v, g, s).hareI == s.hareI && Step(v, g, s).tortoiseI == s.tortoiseI
    ensures BothStopped(Step(v, g, s)) && !Step(v, g, s).moving
  {
  }

  /** Ready for a new run: stopped, flag set, sprites at their nodes. */
  predicate Finished(s: MoveState) {
    && BothStopped(s) && !s.moving && s.hareFirstCircle
    && s.hareLeft == 0 && s.tortoiseLeft == 0
  }

  /** The first tick of a run: Space was pressed while both walkers were stopped. */
  predicate RunStart(v: seq<int>, s: MoveState) {
    OnGraph(v, s) && BothStopped(s) && s.moving && s.hareFirstCircle
  }

  /**
   * A run started with hare at `h` and tortoise at `t` and has taken at least
   * one tick without ending. The tortoise is at f(t); the hare is in one of
   * four phases: on its first hop to f(h), stopped at f(h), on its extra hop
   * to f(f(h)), or stopped there.
   */
  ghost predicate InRun(v: seq<int>, s: MoveState, h: int, t: int)
    requires IsTable(v) && 0 <= h < |v| && 0 <= t < |v|
  {
    var h1 := v[h];
    var h2 := v[h1];
    && OnGraph(v, s) && s.moving && !BothStopped(s)
    && s.tortoiseI == v[t]
    && (s.tortoiseMovement == Zero ==> s.tortoiseLeft == 0)
    && (s.tortoiseMovement != Zero ==> s.tortoiseLeft >= 1)
    && (|| (s.hareI == h1 && s.hareFirstCircle && s.hareMovement != Zero && s.hareLeft >= 1)
        || (s.hareI == h1 && s.hareFirstCircle && s.hareMovement == Zero && s.hareLeft == 0)
        || (h1 != h2 && s.hareI == h2 && !s.hareFirstCircle && s.hareMovement != Zero)
        || (h1 != h2 && s.hareI == h2 && !s.hareFirstCircle && s.hareMovement == Zero && s.hareLeft == 0))
  }

  /** Ticks still to come in a run, bounded by the remaining hop lengths. */
  function RunMeasure(v: seq<int>, g: Geometry, s: MoveState, h: int): nat
    requires IsTable(v) && 0 <= h < |v|
  {
    var h1 := v[h];
    var h2 := v[h1];
    var hare :=
      if s.hareFirstCircle then
        if s.hareMovement != Zero then s.hareLeft + Gap(g.hareHop, h1, h2) + 2
        else if h1 != h2 then g.hareHop(h1, h2) + 2
        else 0
      else if s.hareMovement != Zero then s.hareLeft + 1
      else 0;
    var tortoise := if s.tortoiseMovement != Zero then s.tortoiseLeft + 1 else 0;
    hare + tortoise
  }

  /** The first tick of a run either ends it or enters the run's phases. */
  lemma FirstTick(v: seq<int>, g: Geometry, s: MoveState)
    requires RunStart(v, s)
    ensures Step(v, g, s).moving ==> InRun(v, Step(v, g, s), s.hareI, s.tortoiseI)
    ensures !Step(v, g, s).moving ==> Finished(Step(v, g, s))
  {
    var r := Step(v, g, s);
    var h, t := s.hareI, s.tortoiseI;
    if r.moving {
      assert r.hareI == v[h] && r.tortoiseI == v[t];
      if r.hareMovement == Zero {
        assert r.hareLeft == 0;
      }
    }
  }

  /** A later tick of a run keeps it in its phases with less left to do, or ends it. */
  lemma LaterTick(v: seq<int>, g: Geometry, s: MoveState, h: int, t: int)
    requires IsTable(v) && 0 <= h < |v| && 0 <= t < |v| && InRun(v, s, h, t)
    ensures Step(v, g, s).moving ==>
      InRun(v, Step(v, g, s), h, t) && RunMeasure(v, g, Step(v, g, s), h) < RunMeasure(v, g, s, h)
    ensures !Step(v, g, s).moving ==>
      Finished(Step(v, g, s)) && Step(v, g, s).hareI == v[v[h]] && Step(v, g, s).tortoiseI == v[t]
  {
  }

  /**
   * The rest of a run: the ticks the frame loop makes while `moving` stays
   * set. It ends with the tortoise at f(t) and the hare at f(f(h)).
   */
  ghost function RunFrom(v: seq<int>, g: Geometry, s: MoveState, h: int, t: int): (r: MoveState)
    requires IsTable(v) && 0 <= h < |v| && 0 <= t < |v| && InRun(v, s, h, t)
    ensures Finished(r) && OnGraph(v, r)
    ensures r.tortoiseI == v[t] && r.hareI == v[v[h]]
    decreases RunMeasure(v, g, s, h)
  {
    LaterTick(v, g, s, h, t);
    var next := Step(v, g, s);
    if next.moving then RunFrom(v, g, next, h, t) else next
  }

  /**
   * Both walkers finish their first hop on the tick that starts it (a
   * self-loop counts as finished at once), so the run lasts one tick.
   */
  predicate OneTickRun(v: seq<int>, g: Geometry, s: MoveState)
    requires OnGraph(v, s)
  {
    && !(s.hareI != v[s.hareI] && g.hareHop(s.hareI, v[s.hareI]) >= 2)
    && !(s.tortoiseI != v[s.tortoiseI] && g.tortoiseHop(s.tortoiseI, v[s.tortoiseI]) >= 2)
  }

  /**
   * A complete run from a press of Space to the end of the run: the tortoise
   * takes one edge; the hare takes two, except in a one-tick run, where its
   * extra hop never starts because `hare_i_next` was read before the hop start.
   */
  ghost function CompleteRun(v: seq<int>, g: Geometry, s: MoveState): (r: MoveState)
    requires RunStart(v, s)
    ensures Finished(r) && OnGraph(v, r)
    ensures r.tortoiseI == v[s.tortoiseI]
    ensures r.hareI == if OneTickRun(v, g, s) then v[s.hareI] else v[v[s.hareI]]
  {
    FirstTick(v, g, s);
    var first := Step(v, g, s);
    if first.moving then RunFrom(v, g, first, s.hareI, s.tortoiseI) else first
  }

  /** The state after `k` runs, each started by Space once the previous one has ended. */
  ghost function AfterRuns(v: seq<int>, g: Geometry, k: nat): (r: MoveState)
    requires IsTable(v)
    ensures OnGraph(v, r) && (k > 0 ==> Finished(r))
  {
    if k == 0 then Initial
    else
      var prev := AfterRuns(v, g, k - 1);
      CompleteRun(v, g, prev.(moving := true))
  }

  /** Every hare hop between distinct nodes takes at least two ticks. */
  ghost predicate Unhurried(g: Geometry) {
    forall a, b :: a != b ==> g.hareHop(a, b) >= 2
  }

  /**
   * The animation replays phase 1 of Floyd's algorithm: after k runs from
   * node 0 the tortoise is at f^k(0) and the hare at f^2k(0), so the walkers
   * share a node after run k exactly when phase 1 of `find_duplicates`
   * would stop after round k.
   */
  lemma {:induction false} RunsMirrorFloyd(v: seq<int>, g: Geometry, k: nat)
    requires IsTable(v) && Unhurried(g)
    ensures AfterRuns(v, g, k).tortoiseI == Iter(v, k, 0)
    ensures AfterRuns(v, g, k).hareI == Iter(v, 2 * k, 0)
  {
    if k > 0 {
      RunsMirrorFloyd(v, g, k - 1);
      var prev := AfterRuns(v, g, k - 1);
      var h := prev.hareI;
      assert Iter(v, 2 * k - 1, 0) == v[h];
      assert Iter(v, 2 * k, 0) == v[v[h]];
      if h == v[h] {
        assert v[v[h]] == v[h];
      }
    }
  }
}
