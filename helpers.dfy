/**
 * The integer logic of the free helpers: Floyd's duplicate finder, the
 * random fill of a successor table, the hue normalisation of the HSV colour
 * helper, and the zero-vector guard of the vector-scaling helpers (vectors
 * are abstracted to zero / non-zero).
 */
module Helpers {
  import opened Walks

  /** The one exception the helpers raise: `std::invalid_argument` on a null vector. */
  datatype Error = NullVector

  datatype Result<T> = Ok(value: T) | Err(error: Error)

  /** A displacement in the plane, abstracted to whether it is the null vector. */
  datatype Vec = Zero | NonZero

  /** The shape `get_triangle_for_arrow` returns: an empty vertex array or an arrowhead. */
  datatype Triangle = NoTriangle | Arrowhead

  /**
   * `change_size_to`: rescales a vector to a positive length, and throws on
   * the null vector, whose direction is undefined.
   */
  function ChangeSizeTo(v: Vec): (r: Result<Vec>)
    ensures r.Err? <==> v == Zero
    ensures r.Ok? ==> r.value != Zero
  {
    if v == Zero then Err(NullVector) else Ok(NonZero)
  }

  /**
   * `get_triangle_for_arrow` of the header, given the displacement p1 - p2:
   * the null displacement yields the empty shape, so it never throws.
   */
  function TriangleForArrow(d: Vec): (r: Result<Triangle>)
    ensures r.Ok?
    ensures r.value == NoTriangle <==> d == Zero
  {
    if d == Zero then Ok(NoTriangle)
    else match ChangeSizeTo(d)
      case Ok(_) => Ok(Arrowhead)
      case Err(e) => Err(e)
  }

  /**
   * `get_triangle_for_arrow` of the standalone program, which lacks the zero
   * guard: it throws exactly on the null displacement.
   */
  function TriangleForArrowUnguarded(d: Vec): (r: Result<Triangle>)
    ensures r.Err? <==> d == Zero
    ensures r.Ok? ==> r.value == Arrowhead
  {
    match ChangeSizeTo(d)
    case Ok(_) => Ok(Arrowhead)
    case Err(e) => Err(e)
  }

  /**
   * `find_duplicates`: Floyd's tortoise and hare from node 0. Phase 1 moves
   * the tortoise one edge and the hare two edges per round until they meet
   * (after `rounds` rounds, the first positive round where f^k(0) == f^2k(0));
   * phase 2 walks from node 0 and from the meeting point in lock-step. The
   * result is the entry node of the cycle reached from node 0. The table is a
   * value parameter, so it is left unchanged.
   */
  method FindDuplicates(v: seq<int>) returns (r: int, ghost rounds: nat)
    requires IsTable(v)
    ensures r == CycleEntry(v)
    ensures rounds >= 1 && Iter(v, rounds, 0) == Iter(v, 2 * rounds, 0)
    ensures forall k :: 1 <= k < rounds ==> Iter(v, k, 0) != Iter(v, 2 * k, 0)
  {
    ghost var bound := MeetingBound(v);
    var tortoise, hare := 0, 0;
    // The loop is a do-while: the first round runs unconditionally.
    tortoise := v[tortoise];
    hare := v[v[hare]];
    rounds := 1;
    HareRound(v, 0);
    while tortoise != hare
      invariant 1 <= rounds <= bound
      invariant tortoise == Iter(v, rounds, 0) && hare == Iter(v, 2 * rounds, 0)
      invariant forall k :: 1 <= k < rounds ==> Iter(v, k, 0) != Iter(v, 2 * k, 0)
      decreases bound - rounds
    {
      assert rounds != bound;
      HareRound(v, rounds);
      tortoise := v[tortoise];
      hare := v[v[hare]];
      rounds := rounds + 1;
    }

    ghost var mu := Tail(v);
    MeetingIsOnCycle(v, rounds);
    var ptr1, ptr2 := 0, hare;
    ghost var j: nat := 0;
    while ptr1 != ptr2
      invariant j <= mu
      invariant ptr1 == Iter(v, j, 0) && ptr2 == Iter(v, j + rounds, 0)
      decreases mu - j
    {
      assert j != mu;
      ptr1 := v[ptr1];
      ptr2 := v[ptr2];
      j := j + 1;
    }
    if j < mu {
      RevisitAfterTail(v, j, j + rounds);
    }
    r := ptr2;
  }

  /** One round of the hare: two more edges from f^2k(0). */
  lemma HareRound(v: seq<int>, k: nat)
    requires IsTable(v)
    ensures Iter(v, 2 * k + 2, 0) == v[v[Iter(v, 2 * k, 0)]]
  {
    assert Iter(v, 2 * k + 1, 0) == v[Iter(v, 2 * k, 0)];
  }

  /**
   * Where phase 1 stops (f^k(0) == f^2k(0), k >= 1) the tortoise is on the
   * cycle, and k more edges from the cycle entry return to it.
   */
  lemma MeetingIsOnCycle(v: seq<int>, k: nat)
    requires IsTable(v) && k >= 1 && Iter(v, k, 0) == Iter(v, 2 * k, 0)
    ensures Tail(v) <= k && Iter(v, Tail(v) + k, 0) == CycleEntry(v)
  {
    RevisitAfterTail(v, k, 2 * k);
    CycleShift(v, k, Tail(v), k);
  }

  /**
   * `fill_with_random`: overwrites every element of `v` with a value drawn
   * from [min, max]; each draw of the random generator is a nondeterministic
   * choice in that range. `uniform_int_distribution` needs min <= max.
   */
  method FillWithRandom(v: array<int>, min: int, max: int)
    requires min <= max
    modifies v
    ensures forall i :: 0 <= i < v.Length ==> min <= v[i] <= max
  {
    for i := 0 to v.Length
      invariant forall k :: 0 <= k < i ==> min <= v[k] <= max
    {
      var x :| min <= x <= max;
      v[i] := x;
    }
  }

  /**
   * `hue %= 360` on a C++ `int`: the quotient truncates toward zero, so the
   * remainder takes the sign of the dividend. It is congruent to `a` modulo
   * 360 (here `%` is Dafny's Euclidean remainder, never negative).
   */
  function CppRemainder360(a: int): (r: int)
    ensures -360 < r < 360
    ensures a >= 0 ==> r >= 0
    ensures a <= 0 ==> r <= 0
    ensures r % 360 == a % 360
  {
    if a >= 0 then a % 360 else -((-a) % 360)
  }

  /**
   * The start of `hsv`: `hue %= 360`, then add 360 while negative. The result
   * is the representative of `hue` modulo 360 in [0, 360).
   */
  method NormaliseHue(hue: int) returns (h: int)
    ensures 0 <= h < 360
    ensures h == hue % 360
  {
    h := CppRemainder360(hue);
    while h < 0
      invariant -360 < h < 360
      invariant h % 360 == hue % 360
    {
      h := h + 360;
    }
  }

  /**
   * `int h = hue/60` on a normalised hue: the sector of the colour wheel
   * holding `hue`, one of 0..5, so the `case 6` label of the switch is never
   * the branch taken.
   */
  function HueSector(hue: int): (h: int)
    requires 0 <= hue < 360
    ensures 0 <= h <= 5
    ensures 60 * h <= hue < 60 * h + 60
  {
    hue / 60
  }
}
