/**
 * Walks in a functional graph given as an array of successors: node `i`
 * has exactly one outgoing edge, to `v[i]`. The walk from node 0 is
 * eventually periodic; its "rho" is a tail of `Tail(v)` distinct nodes
 * followed by a cycle of `Period(v)` distinct nodes, and `CycleEntry(v)`
 * is the first node of that cycle.
 */
module Walks {

  /** A successor table: at least one node, and every successor is a node. */
  predicate IsTable(v: seq<int>) {
    |v| > 0 && forall i :: 0 <= i < |v| ==> 0 <= v[i] < |v|
  }

  /** A node whose successor is itself. */
  predicate IsSelfLoop(v: seq<int>, x: int)
    requires 0 <= x < |v|
  {
    v[x] == x
  }

  /** `Iter(v, k, x)` is f^k(x), the node reached from `x` after `k` edges. */
  function Iter(v: seq<int>, k: nat, x: int): (r: int)
    requires IsTable(v) && 0 <= x < |v|
    ensures 0 <= r < |v|
    decreases k
  {
    if k == 0 then x else v[Iter(v, k - 1, x)]
  }

  /** Walking `a` edges after walking `b` edges is walking `a + b` edges. */
  lemma {:induction false} IterAdd(v: seq<int>, a: nat, b: nat, x: int)
    requires IsTable(v) && 0 <= x < |v|
    ensures Iter(v, a + b, x) == Iter(v, a, Iter(v, b, x))
    decreases a
  {
    if a > 0 {
      IterAdd(v, a - 1, b, x);
      assert a + b - 1 == (a - 1) + b;
    }
  }

  /**
   * `mu` and `lam` describe the rho of the walk from 0: the first `mu + lam`
   * nodes of the walk are pairwise distinct, and the next one is node `mu`
   * of the walk again.
   */
  ghost predicate IsRho(v: seq<int>, mu: nat, lam: nat)
    requires IsTable(v)
  {
    && lam >= 1
    && Iter(v, mu + lam, 0) == Iter(v, mu, 0)
    && forall i, j :: 0 <= i < j < mu + lam ==> Iter(v, i, 0) != Iter(v, j, 0)
  }

  /** Among n + 1 values drawn from [0, n) two are equal. */
  lemma {:induction false} Pigeonhole(s: seq<int>, n: nat)
    requires n >= 1 && |s| == n + 1
    requires forall i :: 0 <= i < |s| ==> 0 <= s[i] < n
    ensures exists i, j :: 0 <= i < j < |s| && s[i] == s[j]
    decreases n
  {
    if n == 1 {
      assert s[0] == 0 == s[1];
    } else {
      var last := s[n];
      if exists i :: 0 <= i < n && s[i] == last {
        var i :| 0 <= i < n && s[i] == last;
        assert s[i] == s[n];
      } else {
        // Rename value n - 1 to `last`, which does not occur before index n.
        var t := seq(n, i requires 0 <= i < n => if s[i] == n - 1 then last else s[i]);
        forall i | 0 <= i < n
          ensures 0 <= t[i] < n - 1
        {
          assert s[i] != last;
        }
        Pigeonhole(t, n - 1);
        var i, j :| 0 <= i < j < |t| && t[i] == t[j];
        assert s[i] != last && s[j] != last;
        assert s[i] == s[j];
      }
    }
  }

  /** The first |v| + 1 nodes of the walk from 0 contain a repetition. */
  lemma WalkRepeats(v: seq<int>) returns (i: nat, j: nat)
    requires IsTable(v)
    ensures i < j <= |v| && Iter(v, i, 0) == Iter(v, j, 0)
  {
    var n := |v|;
    var s := seq(n + 1, k requires 0 <= k <= n => Iter(v, k, 0));
    Pigeonhole(s, n);
    var a, b :| 0 <= a < b < |s| && s[a] == s[b];
    i, j := a, b;
  }

  /** A repetition at positions i < j yields a rho no longer than j. */
  lemma {:induction false} RhoFromRepeat(v: seq<int>, i: nat, j: nat) returns (mu: nat, lam: nat)
    requires IsTable(v) && i < j && Iter(v, i, 0) == Iter(v, j, 0)
    ensures IsRho(v, mu, lam) && mu + lam <= j
    decreases j
  {
    if forall a, b :: 0 <= a < b < j ==> Iter(v, a, 0) != Iter(v, b, 0) {
      mu, lam := i, j - i;
    } else {
      var a, b :| 0 <= a < b < j && Iter(v, a, 0) == Iter(v, b, 0);
      mu, lam := RhoFromRepeat(v, a, b);
    }
  }

  /** Every table has a rho reached from node 0, of total length at most |v|. */
  lemma RhoExists(v: seq<int>)
    requires IsTable(v)
    ensures exists mu: nat, lam: nat :: IsRho(v, mu, lam) && mu + lam <= |v|
  {
    var i, j := WalkRepeats(v);
    var mu, lam := RhoFromRepeat(v, i, j);
  }

  /** The rho of a table (tail length, cycle length). */
  ghost function Rho(v: seq<int>): (p: (nat, nat))
    requires IsTable(v)
    ensures IsRho(v, p.0, p.1) && p.0 + p.1 <= |v|
  {
    RhoExists(v);
    var mu: nat, lam: nat :| IsRho(v, mu, lam) && mu + lam <= |v|;
    (mu, lam)
  }

  /** The number of tail nodes in front of the cycle (mu). */
  ghost function Tail(v: seq<int>): nat
    requires IsTable(v)
  {
    Rho(v).0
  }

  /** The length of the cycle reached from node 0 (lambda). */
  ghost function Period(v: seq<int>): nat
    requires IsTable(v)
  {
    Rho(v).1
  }

  /** The entry node of the cycle reached from node 0, f^mu(0). */
  ghost function CycleEntry(v: seq<int>): int
    requires IsTable(v)
  {
    Iter(v, Tail(v), 0)
  }

  /** The rho is unique: any description of it is (Tail(v), Period(v)). */
  lemma RhoUnique(v: seq<int>, mu: nat, lam: nat)
    requires IsTable(v) && IsRho(v, mu, lam)
    ensures mu == Tail(v) && lam == Period(v)
  {
    var m, l := Tail(v), Period(v);
    assert IsRho(v, m, l);
    assert mu + lam == m + l;
  }

  /** On the cycle, walking Period(v) more edges returns to the same node. */
  lemma CycleStep(v: seq<int>, x: nat)
    requires IsTable(v) && x >= Tail(v)
    ensures Iter(v, x + Period(v), 0) == Iter(v, x, 0)
  {
    var mu, lam := Tail(v), Period(v);
    IterAdd(v, x - mu, mu + lam, 0);
    IterAdd(v, x - mu, mu, 0);
    assert x - mu + (mu + lam) == x + lam;
  }

  /** A return after `d` edges at position x persists at every later position. */
  lemma Forward(v: seq<int>, x: nat, z: nat, d: nat)
    requires IsTable(v) && x <= z && Iter(v, x + d, 0) == Iter(v, x, 0)
    ensures Iter(v, z + d, 0) == Iter(v, z, 0)
  {
    IterAdd(v, z - x, x + d, 0);
    IterAdd(v, z - x, x, 0);
    assert z - x + (x + d) == z + d;
  }

  /** A return after `d` edges somewhere on the cycle holds everywhere on it. */
  lemma CycleShift(v: seq<int>, x: nat, y: nat, d: nat)
    requires IsTable(v) && x >= Tail(v) && y >= Tail(v)
    requires Iter(v, x + d, 0) == Iter(v, x, 0)
    ensures Iter(v, y + d, 0) == Iter(v, y, 0)
  {
    var z := CatchUp(v, y, d, x);
    Forward(v, x, z, d);
  }

  /** A position on the cycle can be moved past any bound in steps of Period(v). */
  lemma {:induction false} CatchUp(v: seq<int>, y: nat, d: nat, bound: nat) returns (z: nat)
    requires IsTable(v) && y >= Tail(v)
    ensures z >= bound && Iter(v, z, 0) == Iter(v, y, 0) && Iter(v, z + d, 0) == Iter(v, y + d, 0)
    decreases bound - y
  {
    if y >= bound {
      z := y;
    } else {
      var lam := Period(v);
      CycleStep(v, y);
      CycleStep(v, y + d);
      assert y + d + lam == (y + lam) + d;
      z := CatchUp(v, y + lam, d, bound);
    }
  }

  /**
   * A positive position K on the cycle with f^K(0) == f^(2K)(0): the hare,
   * two edges per round, has caught the tortoise after K rounds.
   */
  lemma {:induction false} MeetingBound(v: seq<int>) returns (k: nat)
    requires IsTable(v)
    ensures k >= 1 && k >= Tail(v) && Iter(v, k + k, 0) == Iter(v, k, 0)
  {
    var mu, lam := Tail(v), Period(v);
    assert IsRho(v, mu, lam);
    k := lam;
    while k < mu
      invariant k >= 1 && Iter(v, mu + k, 0) == Iter(v, mu, 0)
      decreases mu - k
    {
      CycleStep(v, mu + k);
      assert mu + k + lam == mu + (k + lam);
      k := k + lam;
    }
    CycleShift(v, mu, k, k);
  }

  /** Every position of the walk names the same node as one inside the rho. */
  lemma {:induction false} Reduce(v: seq<int>, k: nat) returns (r: nat)
    requires IsTable(v)
    ensures r < Tail(v) + Period(v) && Iter(v, r, 0) == Iter(v, k, 0)
    ensures k < Tail(v) + Period(v) ==> r == k
    ensures k >= Tail(v) ==> r >= Tail(v)
    decreases k
  {
    var mu, lam := Tail(v), Period(v);
    if k < mu + lam {
      r := k;
    } else {
      r := Reduce(v, k - lam);
      CycleStep(v, k - lam);
    }
  }

  /**
   * The only repetitions on the walk from 0 happen on the cycle: if the walk
   * is at the same node at positions i < j, then i is not on the tail.
   */
  lemma RevisitAfterTail(v: seq<int>, i: nat, j: nat)
    requires IsTable(v) && i < j && Iter(v, i, 0) == Iter(v, j, 0)
    ensures Tail(v) <= i
  {
    var mu, lam := Tail(v), Period(v);
    assert IsRho(v, mu, lam);
    var r := Reduce(v, j);
  }

  /** The cycle entry lies on a cycle of positive length Period(v). */
  lemma CycleEntryOnCycle(v: seq<int>)
    requires IsTable(v)
    ensures Period(v) >= 1
    ensures Iter(v, Period(v), CycleEntry(v)) == CycleEntry(v)
  {
    IterAdd(v, Period(v), Tail(v), 0);
  }

  /**
   * The cycle entry is the first node of the walk from 0 that the walk visits
   * twice: it is visited at positions Tail(v) and Tail(v) + Period(v), and any
   * node visited at two positions i < j is visited first no earlier than Tail(v).
   */
  lemma CycleEntryFirstRevisited(v: seq<int>, i: nat, j: nat)
    requires IsTable(v)
    ensures Iter(v, Tail(v) + Period(v), 0) == CycleEntry(v)
    ensures i < j && Iter(v, i, 0) == Iter(v, j, 0) ==> Tail(v) <= i
  {
    if i < j && Iter(v, i, 0) == Iter(v, j, 0) {
      RevisitAfterTail(v, i, j);
    }
  }

  /** Every node reachable from 0 is one of f^0(0), ..., f^(|v|-1)(0). */
  lemma ReachableWithin(v: seq<int>, k: nat) returns (i: nat)
    requires IsTable(v)
    ensures i < |v| && Iter(v, i, 0) == Iter(v, k, 0)
  {
    i := Reduce(v, k);
  }

  /** The walk from 0 meets a self-loop exactly when the cycle has length one. */
  lemma SelfLoopIffUnitPeriod(v: seq<int>)
    requires IsTable(v)
    ensures (exists i :: 0 <= i < |v| && IsSelfLoop(v, Iter(v, i, 0))) <==> Period(v) == 1
  {
    var mu, lam := Tail(v), Period(v);
    if exists i :: 0 <= i < |v| && IsSelfLoop(v, Iter(v, i, 0)) {
      var i :| 0 <= i < |v| && IsSelfLoop(v, Iter(v, i, 0));
      assert Iter(v, i + 1, 0) == Iter(v, i, 0);
      RevisitAfterTail(v, i, i + 1);
      CycleShift(v, i, mu, 1);
      assert IsRho(v, mu, lam);
      assert lam == 1;
    }
    if lam == 1 {
      assert Iter(v, mu + 1, 0) == Iter(v, mu, 0);
      assert v[Iter(v, mu, 0)] == Iter(v, mu, 0);
    }
  }

  /** The table [0]: node 0 is a self-loop and is its own cycle entry. */
  lemma ExampleSelfLoop()
    ensures IsTable([0]) && CycleEntry([0]) == 0
  {
    var v := [0];
    assert Iter(v, 1, 0) == 0;
    assert IsRho(v, 0, 1);
    RhoUnique(v, 0, 1);
  }

  /** The table [1,2,3,4,2]: tail 0 -> 1, then the cycle 2 -> 3 -> 4 -> 2. */
  lemma ExampleRho()
    ensures IsTable([1, 2, 3, 4, 2])
    ensures CycleEntry([1, 2, 3, 4, 2]) == 2 && Tail([1, 2, 3, 4, 2]) == 2 && Period([1, 2, 3, 4, 2]) == 3
  {
    var v := [1, 2, 3, 4, 2];
    ExampleRhoShape(v);
    RhoUnique(v, 2, 3);
  }

  lemma ExampleRhoShape(v: seq<int>)
    requires v == [1, 2, 3, 4, 2]
    ensures IsTable(v) && IsRho(v, 2, 3)
  {
    FirstFive(v, 4);
    assert Iter(v, 5, 0) == v[4] == 2;
    forall i, j | 0 <= i < j < 5
      ensures Iter(v, i, 0) != Iter(v, j, 0)
    {
      FirstFive(v, i);
      FirstFive(v, j);
    }
  }

  lemma FirstFive(v: seq<int>, i: nat)
    requires v == [1, 2, 3, 4, 2] && i < 5
    ensures IsTable(v) && Iter(v, i, 0) == i
  {
    assert IsTable(v);
    if i > 0 {
      FirstFive(v, i - 1);
    }
  }

  /**
   * When |v| >= 2 and no successor is 0 (all lie in [1, |v| - 1]), the cycle
   * entry is not 0 and is the successor of two distinct nodes: a value that
   * occurs twice in v.
   */
  lemma CycleEntryIsDuplicate(v: seq<int>)
    requires |v| >= 2 && forall i :: 0 <= i < |v| ==> 1 <= v[i] <= |v| - 1
    ensures IsTable(v)
    ensures CycleEntry(v) != 0
    ensures exists i, j :: 0 <= i < j < |v| && v[i] == CycleEntry(v) && v[j] == CycleEntry(v)
  {
    var mu, lam := Tail(v), Period(v);
    assert IsRho(v, mu, lam);
    assert mu != 0 by {
      assert Iter(v, lam, 0) == v[Iter(v, lam - 1, 0)];
    }
    var p := Iter(v, mu - 1, 0);
    var q := Iter(v, mu + lam - 1, 0);
    assert v[p] == CycleEntry(v);
    assert v[q] == Iter(v, mu + lam, 0) == CycleEntry(v);
    assert p != q;
    if p < q {
      assert 0 <= p < q < |v|;
    } else {
      assert 0 <= q < p < |v|;
    }
  }
}
