/**
 * The `TortoiseAndHare` object: its successor table (`number_vector`,
 * `n_circles`), the `moving` flag set by the Space key, and the persistent
 * state of `move()` (function-local statics in the source, fields here).
 * Drawing is reduced to the sequence of arrows `draw_arrows` draws.
 */
module Animation {
  import opened Walks
  import opened Helpers
  import opened Motion

  /** One arrow of `draw_arrows`: a straight arrow, or the curled arrow of a self-loop. */
  datatype Arrow = Straight(from: int, to: int) | Curled(node: int)

  /** The arrow drawn for node x. */
  function ArrowAt(v: seq<int>, x: int): (a: Arrow)
    requires IsTable(v) && 0 <= x < |v|
    ensures a.Straight? <==> !IsSelfLoop(v, x)
  {
    if IsSelfLoop(v, x) then Curled(x) else Straight(x, v[x])
  }

  /** The table the size-only constructor leaves: `nc` zeros. */
  function Zeros(nc: nat): (z: seq<int>)
    ensures |z| == nc && forall i :: 0 <= i < nc ==> z[i] == 0
  {
    seq(nc, _ => 0)
  }

  /** In the all-zero table every node maps to 0, and node 0 is a self-loop and the cycle entry. */
  lemma ZerosCycle(nc: nat)
    requires nc >= 1
    ensures IsTable(Zeros(nc))
    ensures CycleEntry(Zeros(nc)) == 0 && Period(Zeros(nc)) == 1
  {
    var v := Zeros(nc);
    assert Iter(v, 1, 0) == 0;
    assert IsRho(v, 0, 1);
    RhoUnique(v, 0, 1);
  }

  /**
   * A table the standalone constructor can draw for six circles (every value
   * in [1, 5]) whose walk from 0 reaches the self-loop at node 1, so the
   * standalone `draw_arrows` raises on it.
   */
  lemma StandaloneSelfLoopExample(v: seq<int>)
    requires v == [1, 1, 1, 1, 1, 1]
    ensures IsTable(v)
    ensures forall i :: 0 <= i < |v| ==> 1 <= v[i] <= 5
    ensures Tail(v) == 1 && Period(v) == 1 && CycleEntry(v) == 1
  {
    forall i | 0 <= i < |v|
      ensures v[i] == 1
    {
    }
    assert Iter(v, 1, 0) == v[0] == 1;
    assert Iter(v, 2, 0) == v[1] == 1;
    assert IsRho(v, 1, 1);
    RhoUnique(v, 1, 1);
  }

  class TortoiseAndHare {
    var nCircles: nat
    var numberVector: seq<int>
    var moving: bool
    // The statics of move(): one set per object here.
    var hareI: int
    var tortoiseI: int
    var hareMovement: Vec
    var tortoiseMovement: Vec
    var hareFirstCircle: bool
    // How far each sprite still is from the node it heads for, in ticks.
    var hareLeft: nat
    var tortoiseLeft: nat
    // The layout (disk radius, node count, speeds) as hop lengths in ticks.
    const geometry: Geometry

    ghost predicate Valid()
      reads this
    {
      nCircles == |numberVector| && nCircles >= 2 && 0 <= hareI < nCircles && 0 <= tortoiseI < nCircles
    }

    /** The state `move()` works on. */
    ghost function State(): MoveState
      reads this
    {
      MoveState(hareI, tortoiseI, hareMovement, tortoiseMovement, hareLeft, tortoiseLeft, hareFirstCircle, moving)
    }

    /**
     * The size-only constructor of the header: `nc` circles, a zero-filled
     * table. Its `RandomGen(1, nc - 1)` member needs 1 <= nc - 1.
     */
    constructor Sized(nc: nat, g: Geometry)
      requires nc >= 2
      ensures Valid() && geometry == g
      ensures nCircles == nc && numberVector == Zeros(nc)
      ensures State() == Initial
    {
      nCircles := nc;
      numberVector := Zeros(nc);
      moving := false;
      hareI, tortoiseI := 0, 0;
      hareMovement, tortoiseMovement := Zero, Zero;
      hareFirstCircle := true;
      hareLeft, tortoiseLeft := 0, 0;
      geometry := g;
    }

    /**
     * The vector constructor of the header: delegates to the size-only one
     * with `v.size()`, then takes `v` as the table.
     */
    constructor FromVector(v: seq<int>, g: Geometry)
      requires |v| >= 2
      ensures Valid() && geometry == g
      ensures nCircles == |v| && numberVector == v
      ensures State() == Initial
    {
      nCircles := |v|;
      numberVector := Zeros(|v|);
      moving := false;
      hareI, tortoiseI := 0, 0;
      hareMovement, tortoiseMovement := Zero, Zero;
      hareFirstCircle := true;
      hareLeft, tortoiseLeft := 0, 0;
      geometry := g;
      numberVector := v;
    }

    /**
     * The constructor of the standalone program: a zero-filled table of `nc`
     * entries, then every entry drawn from `RandomGen(1, nc - 1)`, so no node
     * has successor 0.
     */
    constructor Random(nc: nat, g: Geometry)
      requires nc >= 2
      ensures Valid() && geometry == g
      ensures nCircles == nc && |numberVector| == nc
      ensures forall i :: 0 <= i < nc ==> 1 <= numberVector[i] <= nc - 1
      ensures IsTable(numberVector)
      ensures State() == Initial
    {
      var table := new int[nc](_ => 0);
      FillWithRandom(table, 1, nc - 1);
      nCircles := nc;
      numberVector := table[..];
      moving := false;
      hareI, tortoiseI := 0, 0;
      hareMovement, tortoiseMovement := Zero, Zero;
      hareFirstCircle := true;
      hareLeft, tortoiseLeft := 0, 0;
      geometry := g;
    }

    /**
     * One call of `move()`. The table and the layout are left alone; the new
     * state is one `Step` of the old one.
     */
    method Move()
      requires Valid() && IsTable(numberVector)
      modifies this
      ensures Valid()
      ensures numberVector == old(numberVector) && nCircles == old(nCircles)
      ensures State() == Step(numberVector, geometry, old(State()))
    {
      var hareNext := numberVector[hareI];
      StartHops();
      AdvanceSprites();
      HareArrive(hareNext);
      TortoiseArrive();
      EndRunIfStopped();
    }

    /** The synchronised hop start of `move()`. */
    method StartHops()
      requires Valid() && IsTable(numberVector)
      modifies this
      ensures Valid()
      ensures numberVector == old(numberVector) && nCircles == old(nCircles)
      ensures State() == SyncStart(numberVector, geometry, old(State()))
    {
      var hareNext := numberVector[hareI];
      var tortoiseNext := numberVector[tortoiseI];
      if hareMovement == Zero && tortoiseMovement == Zero {
        if hareI != hareNext {
          hareMovement := GetSpeed(nCircles, hareI, hareNext).value;
        }
        if tortoiseI != tortoiseNext {
          tortoiseMovement := GetSpeed(nCircles, tortoiseI, tortoiseNext).value;
        }
        // The sprites are put on their nodes and head for the successors.
        hareLeft := Gap(geometry.hareHop, hareI, hareNext);
        tortoiseLeft := Gap(geometry.tortoiseHop, tortoiseI, tortoiseNext);
        hareI := hareNext;
        tortoiseI := tortoiseNext;
      }
    }

    /** `hare.move(hare_movement)` and `tortoise.move(tortoise_movement)`. */
    method AdvanceSprites()
      modifies this
      ensures numberVector == old(numberVector) && nCircles == old(nCircles)
      ensures State() == Advance(old(State()))
    {
      if hareMovement != Zero {
        hareLeft := Shrink(hareLeft);
      }
      if tortoiseMovement != Zero {
        tortoiseLeft := Shrink(tortoiseLeft);
      }
    }

    /** The hare's arrival test, with the successor read at the start of the tick. */
    method HareArrive(hareNext: int)
      requires Valid() && IsTable(numberVector) && 0 <= hareNext < nCircles
      modifies this
      ensures Valid()
      ensures numberVector == old(numberVector) && nCircles == old(nCircles)
      ensures State() == HareArrival(numberVector, geometry, old(State()), hareNext)
    {
      if hareLeft == 0 {
        if hareFirstCircle && hareI != hareNext {
          hareFirstCircle := false;
          hareMovement := GetSpeed(nCircles, hareI, hareNext).value;
          hareLeft := Gap(geometry.hareHop, hareI, hareNext);
          hareI := hareNext;
        } else {
          hareMovement := Zero;
        }
      }
    }

    /** The tortoise's arrival test. */
    method TortoiseArrive()
      modifies this
      ensures numberVector == old(numberVector) && nCircles == old(nCircles)
      ensures State() == TortoiseArrival(old(State()))
    {
      if tortoiseLeft == 0 {
        tortoiseMovement := Zero;
      }
    }

    /** The end-of-run check of `move()`. */
    method EndRunIfStopped()
      modifies this
      ensures numberVector == old(numberVector) && nCircles == old(nCircles)
      ensures State() == EndCheck(old(State()))
    {
      if hareMovement == Zero && tortoiseMovement == Zero {
        hareFirstCircle := true;
        moving := false;
      }
    }

    /**
     * The state-changing part of one frame of `start_loop`: a Space key press
     * sets `moving`, and `move()` runs only while `moving` is set.
     */
    method Frame(spacePressed: bool)
      requires Valid() && IsTable(numberVector)
      modifies this
      ensures Valid()
      ensures numberVector == old(numberVector) && nCircles == old(nCircles)
      ensures old(moving) || spacePressed ==>
        State() == Step(numberVector, geometry, old(State()).(moving := true))
      ensures !old(moving) && !spacePressed ==> State() == old(State())
    {
      if spacePressed {
        moving := true;
      }
      if moving {
        Move();
      }
    }

    /**
     * `draw_arrows` of the header: `n_circles` arrows along the walk from 0,
     * a straight one where the node is not a self-loop and a curled one where
     * it is. Every `change_size_to` it makes gets a non-null vector, and its
     * triangle helper is the guarded one, so it never throws.
     */
    method DrawArrows() returns (arrows: seq<Arrow>)
      requires Valid() && IsTable(numberVector)
      ensures |arrows| == nCircles
      ensures forall i :: 0 <= i < nCircles ==> arrows[i] == ArrowAt(numberVector, Iter(numberVector, i, 0))
    {
      var start := 0;
      arrows := [];
      for i := 0 to nCircles
        invariant 0 <= start < nCircles && start == Iter(numberVector, i, 0)
        invariant |arrows| == i
        invariant forall k :: 0 <= k < i ==> arrows[k] == ArrowAt(numberVector, Iter(numberVector, k, 0))
      {
        var next := numberVector[start];
        if start != next {
          var shortened := ChangeSizeTo(Displacement(nCircles, start, next)).value;
          // `draw_arrow` asks the guarded triangle helper for the head, with
          // the displacement from the shortened end back to the node.
          var head := TriangleForArrow(Displacement(nCircles, next, start)).value;
          arrows := arrows + [Straight(start, next)];
        } else {
          // `pos1 - centre`: the node lies `disk_radius` > 0 from the centre.
          var radial := ChangeSizeTo(NonZero).value;
          // The arrowhead goes to the guarded triangle helper, which returns a
          // shape for every pair of vertices.
          var head := TriangleForArrow(radial).value;
          arrows := arrows + [Curled(start)];
        }
        start := next;
      }
    }

    /**
     * `draw_arrows` of the standalone program: every arrow is drawn straight,
     * and `get_triangle_for_arrow` there has no zero guard, so the first
     * self-loop on the walk from 0 raises `invalid_argument`. That happens
     * exactly when the cycle reached from 0 is a self-loop.
     */
    method DrawArrowsStandalone() returns (r: Result<seq<Arrow>>)
      requires Valid() && IsTable(numberVector)
      ensures r.Err? <==> exists i :: 0 <= i < nCircles && IsSelfLoop(numberVector, Iter(numberVector, i, 0))
      ensures r.Err? <==> Period(numberVector) == 1
      ensures r.Ok? ==> |r.value| == nCircles
      ensures r.Ok? ==> forall i :: 0 <= i < nCircles ==>
        r.value[i] == Straight(Iter(numberVector, i, 0), Iter(numberVector, i + 1, 0))
    {
      SelfLoopIffUnitPeriod(numberVector);
      var start := 0;
      var arrows := [];
      var i := 0;
      while i < nCircles
        invariant 0 <= i <= nCircles
        invariant 0 <= start < nCircles && start == Iter(numberVector, i, 0)
        invariant |arrows| == i
        invariant forall k :: 0 <= k < i ==> !IsSelfLoop(numberVector, Iter(numberVector, k, 0))
        invariant forall k :: 0 <= k < i ==>
          arrows[k] == Straight(Iter(numberVector, k, 0), Iter(numberVector, k + 1, 0))
      {
        var next := numberVector[start];
        var d := Displacement(nCircles, start, next);
        if d != Zero {
          d := ChangeSizeTo(d).value;
        }
        // After `pos2 -= v` the arrow runs from the node's position to a point
        // that differs from it exactly when the node is not a self-loop.
        var head := TriangleForArrowUnguarded(Displacement(nCircles, start, next));
        if head.Err? {
          return Err(head.error);
        }
        arrows := arrows + [Straight(start, next)];
        start := next;
        i := i + 1;
      }
      return Ok(arrows);
    }
  }

  /**
   * The integer part of the standalone `main`: build a 6-circle object with
   * a random table and run `find_duplicates` on its table. The value it
   * prints is a node other than 0 that two distinct nodes lead to.
   */
  method StartupReport(g: Geometry) returns (v: seq<int>, duplicate: int)
    ensures |v| == 6 && forall i :: 0 <= i < 6 ==> 1 <= v[i] <= 5
    ensures IsTable(v) && duplicate == CycleEntry(v)
    ensures duplicate != 0
    ensures exists i, j :: 0 <= i < j < 6 && v[i] == duplicate && v[j] == duplicate
  {
    var tah := new TortoiseAndHare.Random(6, g);
    v := tah.numberVector;
    ghost var rounds: nat;
    duplicate, rounds := FindDuplicates(v);
    CycleEntryIsDuplicate(v);
  }
}
