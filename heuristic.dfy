/**
 * The Manhattan-distance heuristic of calculateSumOfError, stated cell by cell,
 * with its value on the goal and its behaviour across one move.
 */
module Heuristic {
  import opened Grid

  /**
   * Integer division truncating toward zero, as Java's / on int: the quotient has the
   * sign of a and the magnitude of |a| / d rounded down.
   */
  function TruncDiv(a: int, d: int): (q: int)
    requires d > 0
    ensures a >= 0 ==> q >= 0
    ensures a <= 0 ==> q <= 0
    ensures Abs(q) * d <= Abs(a) < (Abs(q) + 1) * d
  {
    if a >= 0 then a / d else -((-a) / d)
  }

  /** Java's % on int: the remainder of |a| by d, carrying the sign of a. */
  function TruncRem(a: int, d: int): (m: int)
    requires d > 0
    ensures a >= 0 ==> m == a % d
    ensures a < 0 ==> m == -((-a) % d)
    ensures Abs(m) < d
    ensures a >= 0 ==> m >= 0
    ensures a <= 0 ==> m <= 0
  {
    a - d * TruncDiv(a, d)
  }

  /**
   * The contribution of the cell at index k holding v: 0 for the blank, otherwise
   * the row and column distance from (k / 3, k % 3) to the target of v.
   */
  function TileDistance(k: nat, v: int): (r: int)
    ensures r >= 0
    ensures v == 0 ==> r == 0
  {
    if v == 0 then 0
    else Abs(k / 3 - TruncDiv(v - 1, 3)) + Abs(k % 3 - TruncRem(v - 1, 3))
  }

  /** The running sum after the scan has visited the first n cells. */
  function PartialSum(b: Board, n: nat): (s: int)
    requires n <= 9
    ensures s >= 0
  {
    if n == 0 then 0 else PartialSum(b, n - 1) + TileDistance(n - 1, b[n - 1])
  }

  /** calculateSumOfError: the sum over all nine cells. */
  function Manhattan(b: Board): (h: int)
    ensures h >= 0
  {
    PartialSum(b, |b|)
  }

  /** The term of the cell in row i, column j, as the nested loops compute it. */
  lemma TileDistanceAt(i: int, j: int, v: int)
    requires InBounds(i, j)
    ensures TileDistance(3 * i + j, v) ==
      if v == 0 then 0 else Abs(i - TruncDiv(v - 1, 3)) + Abs(j - TruncRem(v - 1, 3))
  {
    CellOf(i, j);
  }

  /** A tile of value v in 1..8 is at distance 0 exactly in cell v - 1. */
  lemma TileDistanceZero(k: nat, v: int)
    requires k < 9 && 1 <= v <= 8
    ensures TileDistance(k, v) == 0 <==> k == v - 1
  {
  }

  lemma {:induction false} PartialSumZero(b: Board, n: nat)
    requires n <= 9
    ensures PartialSum(b, n) == 0 <==> forall k :: 0 <= k < n ==> TileDistance(k, b[k]) == 0
  {
    if n > 0 {
      PartialSumZero(b, n - 1);
    }
  }

  /** The heuristic is 0 on the goal layout. */
  lemma ManhattanGoal()
    ensures Manhattan(Goal) == 0
  {
    forall k | 0 <= k < 9
      ensures TileDistance(k, Goal[k]) == 0
    {
      assert Goal[k] == if k < 8 then k + 1 else 0;
      if k < 8 {
        TileDistanceZero(k, k + 1);
      }
    }
    PartialSumZero(Goal, |Goal|);
  }

  /** A zero heuristic puts every tile in its own cell. */
  lemma TilesHome(b: Board)
    requires ValidBoard(b) && Manhattan(b) == 0
    ensures forall k :: 0 <= k < 9 && b[k] != 0 ==> b[k] == k + 1
  {
    PartialSumZero(b, |b|);
    forall k | 0 <= k < 9 && b[k] != 0
      ensures b[k] == k + 1
    {
      TileDistanceZero(k, b[k]);
    }
  }

  /** A permutation of 0..8 whose tiles all sit in their own cells is the goal. */
  lemma HomeIsGoal(b: Board)
    requires ValidBoard(b)
    requires forall k :: 0 <= k < 9 && b[k] != 0 ==> b[k] == k + 1
    ensures b == Goal
  {
    forall k | 0 <= k < 8
      ensures b[k] == k + 1
    {
      assert k + 1 in b;
      var j :| 0 <= j < 9 && b[j] == k + 1;
    }
    assert 0 in b;
    var j :| 0 <= j < 9 && b[j] == 0;
    assert j == 8;
    assert forall k :: 0 <= k < 9 ==> b[k] == Goal[k];
  }

  /** On a permutation of 0..8 the heuristic is 0 exactly on the goal layout. */
  lemma ManhattanZeroIff(b: Board)
    requires ValidBoard(b)
    ensures Manhattan(b) == 0 <==> b == Goal
  {
    ManhattanGoal();
    if Manhattan(b) == 0 {
      TilesHome(b);
      HomeIsGoal(b);
    }
  }

  /** Changing only cells z and t changes the running sum by the change in those two cells' contributions. */
  lemma {:induction false} PartialSumTwoCells(b: Board, c: Board, z: nat, t: nat, n: nat)
    requires n <= 9 && z < 9 && t < 9 && z != t
    requires forall k :: 0 <= k < 9 && k != z && k != t ==> c[k] == b[k]
    ensures PartialSum(c, n) - PartialSum(b, n) ==
      (if z < n then TileDistance(z, c[z]) - TileDistance(z, b[z]) else 0) +
      (if t < n then TileDistance(t, c[t]) - TileDistance(t, b[t]) else 0)
  {
    if n > 0 {
      PartialSumTwoCells(b, c, z, t, n - 1);
    }
  }

  /** Moving one tile to a neighbouring cell changes its distance by at most 1. */
  lemma TileDistanceAdjacent(z: nat, t: nat, v: int)
    requires Adjacent(z, t)
    ensures TileDistance(z, v) <= TileDistance(t, v) + 1
  {
  }

  /**
   * Consistency: one move from a permutation of 0..8 changes the heuristic by at most 1
   * in either direction.
   */
  lemma StepConsistent(a: Board, b: Board)
    requires ValidBoard(a)
    requires Step(a, b)
    ensures Manhattan(a) <= Manhattan(b) + 1 && Manhattan(b) <= Manhattan(a) + 1
  {
    StepIsBlankSwap(a, b);
    var z, t :| Adjacent(z, t) && a[z] == 0 && b == a[z := a[t]][t := 0];
    PartialSumTwoCells(a, b, z, t, |a|);
    TileDistanceAdjacent(z, t, a[t]);
    TileDistanceAdjacent(t, z, a[t]);
  }

  /**
   * Admissibility: along any sequence of moves from a permutation of 0..8, the heuristic of
   * the first board is at most the number of moves plus the heuristic of the last board;
   * so it never exceeds the length of any path to the goal.
   */
  lemma {:induction false} Admissible(p: seq<Board>)
    requires |p| > 0 && ValidBoard(p[0]) && IsPath(p)
    ensures Manhattan(p[0]) <= |p| - 1 + Manhattan(p[|p| - 1])
    ensures p[|p| - 1] == Goal ==> Manhattan(p[0]) <= |p| - 1
  {
    ManhattanGoal();
    if |p| > 1 {
      PathTail(p);
      StepConsistent(p[0], p[1]);
      StepIsBlankSwap(p[0], p[1]);
      var q := p[1..];
      Admissible(q);
    }
  }
}
